/**
  Which keysets a build accepts, and what it reports for the others.
 */
module Reports {
  import opened Dictionary
  import opened UnitWords
  import opened Layouts
  import opened BuilderState
  import opened DoubleArraySearch
  import opened Keysets
  import opened KeysetRanges
  import opened KeyWeights
  import opened DawgLevels
  import opened DawgWalks

  /** Keys in order, free of zero bytes, with values that can be stored; explicit values also exclude the empty key. */
  ghost predicate WellFormed(ks: Keyset)
    requires ks.Valid()
  {
    forall i :: 0 <= i < |ks.keys| ==> KeyAccepted(ks, i) && Follows(ks, i)
  }

  /** Key i is not smaller than the key before it. */
  ghost predicate Follows(ks: Keyset, i: nat)
    requires i < |ks.keys|
  {
    i > 0 ==> KeyLeq(ks.keys[i - 1], ks.keys[i])
  }

  ghost predicate KeyAccepted(ks: Keyset, i: nat)
    requires ks.Valid() && i < |ks.keys|
  {
    NulFreeKey(ks.keys[i]) && ks.Value(i) >= 0 && (ks.values.Some? ==> ks.keys[i] != [])
  }

  /** The key has a zero byte at a place up to which it agrees with the last key. */
  ghost predicate NulMeets(last: Key, key: Key) {
    exists k :: 0 <= k < |key| && k <= |last| && key[k] == 0 && key[..k] == last[..k]
  }

  ghost predicate NulSeen(ks: Keyset, i: nat)
    requires i < |ks.keys| == |ks.following|
  {
    Before(ks, i).Some? && NulMeets(Before(ks, i).value, ks.keys[i])
  }

  /** The last key goes on from this one, with a byte that is smaller than the byte after this one. */
  ghost predicate GoesBehind(last: Key, key: Key, following: Byte) {
    |key| < |last| && key == last[..|key|] && NulFreeKey(key) && 0 < last[|key|] < following
  }

  /** Key i is out of order, and the word graph gets it behind the last key. */
  ghost predicate Misplaces(ks: Keyset, i: nat)
    requires i < |ks.keys| == |ks.following|
  {
    Before(ks, i).Some? && GoesBehind(Before(ks, i).value, ks.keys[i], ks.following[i])
  }

  /** That key i is out of order goes unnoticed: it is dropped, or misplaced. */
  ghost predicate SlipsPast(ks: Keyset, i: nat)
    requires i < |ks.keys| == |ks.following|
  {
    Dropped(ks, i) || Misplaces(ks, i)
  }

  /** Key i is dropped, or not smaller than the last one that is not. */
  ghost predicate InPlace(ks: Keyset, i: nat)
    requires i < |ks.keys| == |ks.following|
  {
    Dropped(ks, i) || (Before(ks, i).Some? ==> KeyLeq(Before(ks, i).value, ks.keys[i]))
  }

  /** Keysets that are built, if they are not too large: well-formed ones, and with values those with dropped keys. */
  ghost predicate Accepted(ks: Keyset)
    requires ks.Valid()
  {
    if ks.values.None? then WellFormed(ks)
    else forall i :: 0 <= i < |ks.keys| ==> KeyAccepted(ks, i) && InPlace(ks, i)
  }

  /** What the word-graph builder reports for key i once the keys before it are in, if a zero byte follows it. */
  ghost function GuardedOutcome(ks: Keyset, i: nat): Outcome
    requires ks.Valid() && i < |ks.keys|
  {
    if ks.Value(i) < 0 then Failed(NegativeValue)
    else if ks.keys[i] == [] then Failed(ZeroLength)
    else if NulSeen(ks, i) then Failed(InvalidNull)
    else if Before(ks, i).Some? && !KeyLeq(Before(ks, i).value, ks.keys[i]) then Failed(WrongOrder)
    else Built
  }

  /** What the word-graph builder reports for key i, whatever follows it. */
  ghost function KeyOutcome(ks: Keyset, i: nat): Outcome
    requires ks.Valid() && i < |ks.keys|
  {
    if ks.Value(i) >= 0 && ks.keys[i] != [] && SlipsPast(ks, i) then Built else GuardedOutcome(ks, i)
  }

  /** Of the keys that the word-graph builder accepts, none has a zero byte inside or is misplaced. */
  ghost predicate Placeable(ks: Keyset) {
    && ks.Valid() && ks.values.Some?
    && forall i :: 0 <= i < |ks.keys| && FirstOutcome(ks, i + 1) == Built ==>
         NulFreeKey(ks.keys[i]) && !Misplaces(ks, i)
  }

  /** The map that a build stores. */
  ghost function KeysetDict(ks: Keyset): Dict
    requires ks.Valid()
  {
    if ks.values.Some? then GraphDict(ks, |ks.keys|) else RangeDict(ks, 0, |ks.keys|, 0)
  }

  /** The report for the first faulty key among the first n. */
  ghost function FirstOutcome(ks: Keyset, n: nat): (r: Outcome)
    requires ks.Valid() && n <= |ks.keys|
    ensures r != Failed(TooLargeOffset)
  {
    if n == 0 then Built
    else if FirstOutcome(ks, n - 1).Failed? then FirstOutcome(ks, n - 1)
    else KeyOutcome(ks, n - 1)
  }

  /** What an error means for the keyset. */
  ghost predicate Reported(ks: Keyset, error: BuildError)
    requires ks.Valid()
  {
    if error == TooLargeOffset then KeysetBytes(ks.keys) + 2 > MAX_OFFSETS / 256
    else if ks.values.Some? then FirstOutcome(ks, |ks.keys|) == Failed(error)
    else Justified(ks, 0, |ks.keys|, 0, error)
  }

  /** A finished array for the map d. */
  ghost predicate Encodes(units: seq<nat>, sem: map<nat, Dict>, d: Dict) {
    && Represents(units, sem) && 0 in sem && sem[0] == d
    && (d != map[] ==> NoDeadNode(sem))
    && (d == map[] ==> units == EmptyUnits())
  }

  lemma {:induction false} FirstOutcomeFixed(ks: Keyset, i: nat, n: nat)
    requires ks.Valid() && i <= n <= |ks.keys| && FirstOutcome(ks, i).Failed?
    ensures FirstOutcome(ks, n) == FirstOutcome(ks, i)
    decreases n
  {
    hide KeyOutcome;
    if i < n {
      FirstOutcomeFixed(ks, i, n - 1);
    }
  }

  lemma {:induction false} OutcomesBuilt(ks: Keyset, n: nat)
    requires ks.Valid() && ks.values.Some? && n <= |ks.keys|
    ensures (forall i :: 0 <= i < n ==> KeyAccepted(ks, i) && InPlace(ks, i)) ==> FirstOutcome(ks, n) == Built
    ensures Placeable(ks) && FirstOutcome(ks, n) == Built ==>
      forall i :: 0 <= i < n ==> KeyAccepted(ks, i) && InPlace(ks, i)
    decreases n
  {
    hide KeyOutcome, KeyAccepted, InPlace, Misplaces;
    if n > 0 {
      OutcomesBuilt(ks, n - 1);
      OutcomeOfOne(ks, n - 1);
    }
  }

  lemma {:induction false} OutcomeOfOne(ks: Keyset, i: nat)
    requires ks.Valid() && ks.values.Some? && i < |ks.keys|
    ensures KeyOutcome(ks, i) == Built && NulFreeKey(ks.keys[i]) && !Misplaces(ks, i)
      <==> KeyAccepted(ks, i) && InPlace(ks, i)
  {
    hide Keyset.Value, Before;
    if Misplaces(ks, i) {
      PrefixSmaller(ks.keys[i], Before(ks, i).value);
    }
    hide KeyLeq;
  }

  lemma {:induction false} PrefixSmaller(s: Key, t: Key)
    requires |s| < |t| && s == t[..|s|]
    ensures !KeyLeq(t, s)
  {
    KeyLeqFrom(t, s, |s|);
  }

  /** The byte after a key changes the report exactly for the keys that slip past the order. */
  lemma {:induction false} SlipsMatter(ks: Keyset, i: nat)
    requires ks.Valid() && i < |ks.keys|
    ensures KeyOutcome(ks, i) != GuardedOutcome(ks, i)
      <==> ks.Value(i) >= 0 && ks.keys[i] != [] && SlipsPast(ks, i)
    ensures ks.following[i] == 0 ==> !SlipsPast(ks, i)
  {
    hide Keyset.Value, Before;
    if SlipsPast(ks, i) {
      PrefixSmaller(ks.keys[i], Before(ks, i).value);
    }
    hide KeyLeq;
  }

  /** In a well-formed keyset no key is dropped or misplaced. */
  lemma {:induction false} WellFormedBefore(ks: Keyset, i: nat)
    requires ks.Valid() && WellFormed(ks) && i <= |ks.keys|
    ensures Before(ks, i) == if i == 0 then None else Some(ks.keys[i - 1])
    ensures i < |ks.keys| ==> InPlace(ks, i) && !Dropped(ks, i) && !Misplaces(ks, i)
    decreases i
  {
    hide KeyAccepted, NulFreeKey;
    if i > 0 {
      WellFormedBefore(ks, i - 1);
      hide WellFormed;
    }
    if 0 < i < |ks.keys| {
      assert Follows(ks, i) by {
        EachFollows(ks, i);
      }
      if |ks.keys[i]| < |ks.keys[i - 1]| && ks.keys[i] == ks.keys[i - 1][..|ks.keys[i]|] {
        PrefixSmaller(ks.keys[i], ks.keys[i - 1]);
      }
      hide KeyLeq;
    }
  }

  lemma {:induction false} EachFollows(ks: Keyset, i: nat)
    requires ks.Valid() && WellFormed(ks) && i < |ks.keys|
    ensures Follows(ks, i) && KeyAccepted(ks, i)
  {
    hide Follows, KeyAccepted;
  }

  /** What is accepted is well formed exactly if no key is dropped. */
  lemma {:induction false} AcceptedForms(ks: Keyset)
    requires ks.Valid()
    ensures WellFormed(ks) ==> Accepted(ks)
    ensures Accepted(ks) && ks.values.Some? ==>
      (WellFormed(ks) <==> forall i :: 0 <= i < |ks.keys| ==> !Dropped(ks, i))
  {
    hide KeyAccepted, Follows, InPlace, Dropped, Before;
    if WellFormed(ks) {
      forall i | 0 <= i < |ks.keys|
        ensures KeyAccepted(ks, i) && InPlace(ks, i) && !Dropped(ks, i)
      {
        EachFollows(ks, i);
        WellFormedBefore(ks, i);
      }
    }
    if Accepted(ks) && ks.values.Some? && forall i :: 0 <= i < |ks.keys| ==> !Dropped(ks, i) {
      forall i | 0 <= i < |ks.keys|
        ensures KeyAccepted(ks, i) && Follows(ks, i)
      {
        FollowsKept(ks, i);
      }
    }
  }

  lemma {:induction false} FollowsKept(ks: Keyset, i: nat)
    requires ks.Valid() && i < |ks.keys| && InPlace(ks, i) && !Dropped(ks, i) && (i > 0 ==> !Dropped(ks, i - 1))
    ensures Follows(ks, i)
  {
    hide KeyLeq, DropsOut;
  }

  lemma {:induction false} RangeAccepted(ks: Keyset)
    requires ks.Valid() && ks.values.None?
    ensures InRange(ks, 0, |ks.keys|, 0)
    ensures WellFormed(ks) <==> RangeOk(ks, 0, |ks.keys|, 0)
  {
    hide KeyLeq, NulFreeKey, Keyset.Value;
    var n := |ks.keys|;
    assert forall i :: 0 <= i < n ==> ks.keys[i][0..] == ks.keys[i];
    if RangeOk(ks, 0, n, 0) {
      forall i | 0 <= i < n
        ensures KeyAccepted(ks, i) && Follows(ks, i)
      {
        assert NulFreeFrom(ks, i, 0);
        assert i > 0 ==> InOrder(ks, i - 1, 0);
      }
    }
    if WellFormed(ks) {
      forall i | 0 <= i < n
        ensures NulFreeFrom(ks, i, 0) && ks.Value(i) >= 0
      {
        assert KeyAccepted(ks, i);
      }
      forall i | 0 <= i < n - 1
        ensures InOrder(ks, i, 0)
      {
        assert Follows(ks, i + 1);
      }
    }
  }

  /** Other than for size, a build fails only on keysets that are not accepted, and thus malformed. */
  lemma {:induction false} ReportsAreFaults(ks: Keyset, error: BuildError)
    requires ks.Valid() && error != TooLargeOffset && Reported(ks, error)
    ensures !Accepted(ks) && !WellFormed(ks)
  {
    AcceptedForms(ks);
    if ks.values.Some? {
      hide WellFormed, KeyAccepted, InPlace;
      OutcomesBuilt(ks, |ks.keys|);
    } else {
      hide NulFreeKey, Keyset.Value;
      RangeAccepted(ks);
      hide KeyLeq, InOrder, NulFreeFrom;
    }
  }

  /** A keyset of less than two million bytes, terminators counted, is built if and only if it is accepted. */
  lemma {:induction false} SmallKeysetsBuild(ks: Keyset, outcome: Outcome)
    requires ks.Valid() && KeysetBytes(ks.keys) <= 0x20_0000 - 2
    requires outcome == Built ==> Accepted(ks)
    requires outcome.Failed? ==> Reported(ks, outcome.error)
    ensures outcome == Built <==> Accepted(ks)
  {
    hide Accepted;
    if outcome.Failed? && outcome.error != TooLargeOffset {
      hide Reported;
      ReportsAreFaults(ks, outcome.error);
    }
  }

  // Which value is stored for a key.

  /**
    Of several pairs with the same key the first one is stored exactly if there are
    no values, or the last pair that the word graph takes for a key has the first value.
   */
  ghost predicate FirstKept(ks: Keyset)
    requires ks.Valid()
  {
    ks.values.None? || RepeatsAgree(ks)
  }

  lemma {:induction false} FirstPairs(ks: Keyset)
    requires ks.Valid() && Accepted(ks)
    ensures FirstValues(ks, KeysetDict(ks)) <==> FirstKept(ks)
  {
    hide Accepted, FirstValues, RepeatsAgree, GraphDict, RangeDict;
    AcceptedValues(ks);
    if ks.values.Some? {
      GraphFirst(ks);
    } else {
      WholeRange(ks);
    }
  }

  /** A key that is stored: with values, one that is not dropped. */
  ghost predicate IsStored(ks: Keyset, k: Key)
    requires ks.Valid()
  {
    if ks.values.Some? then IsKept(ks, k) else k in ks.keys
  }

  /** The keys of the stored map. */
  lemma {:induction false} DictKeys(ks: Keyset)
    requires ks.Valid()
    ensures forall k :: k in KeysetDict(ks) <==> IsStored(ks, k)
  {
    hide GraphDict, RangeDict, IsKept;
    var n: nat := |ks.keys|;
    GraphKeys(ks);
    assert forall i :: 0 <= i < n ==> ks.keys[i][0..] == ks.keys[i];
    forall k
      ensures k in RangeDict(ks, 0, n, 0) <==> k in ks.keys
    {
      if k in RangeDict(ks, 0, n, 0) {
        var i := RangeMember(ks, 0, n, 0, k);
      }
      if k in ks.keys {
        var i :| 0 <= i < n && ks.keys[i] == k;
        RangeCovers(ks, 0, n, 0, i);
      }
    }
  }

  /** A zero byte after every key is enough: then the first pairs are stored. */
  lemma {:induction false} ZeroKeepsFirst(ks: Keyset)
    requires ks.Valid() && WellFormed(ks) && ZeroFollows(ks)
    ensures FirstKept(ks)
  {
    hide WellFormed, Stores;
    var n: nat := |ks.keys|;
    forall f | 0 <= f < n && ks.keys[f] !in ks.keys[..f]
      ensures FirstStays(ks, f)
    {
      FirstTaken(ks, f);
      forall j | f < j < n && ks.keys[j] == ks.keys[f]
        ensures !Stores(ks, j)
      {
        EqualTogether(ks, f, j);
        NotTaken(ks, j);
      }
      assert LastStored(ks, n, ks.keys[f], f);
    }
  }

  lemma {:induction false} FirstTaken(ks: Keyset, f: nat)
    requires ks.Valid() && ZeroFollows(ks) && f < |ks.keys| && ks.keys[f] !in ks.keys[..f]
    ensures Stores(ks, f)
  {
    NothingDropped(ks, f);
    hide Dropped, Before;
    if f > 0 {
      assert ks.keys[..f][f - 1] == ks.keys[f - 1];
    }
  }

  lemma {:induction false} NotTaken(ks: Keyset, j: nat)
    requires ks.Valid() && ZeroFollows(ks) && 0 < j < |ks.keys| && ks.keys[j - 1] == ks.keys[j]
    ensures !Stores(ks, j)
  {
    NothingDropped(ks, j);
    hide Dropped, Before;
  }

  /** Of accepted keys none is misplaced. */
  lemma {:induction false} AcceptedPlaceable(ks: Keyset)
    requires ks.Valid() && Accepted(ks) && ks.values.Some?
    ensures Placeable(ks)
  {
    hide FirstOutcome, KeyAccepted, InPlace, Misplaces, KeyOutcome, NulFreeKey;
    forall i | 0 <= i < |ks.keys| && FirstOutcome(ks, i + 1) == Built
      ensures NulFreeKey(ks.keys[i]) && !Misplaces(ks, i)
    {
      assert KeyAccepted(ks, i) && InPlace(ks, i);
      OutcomeOfOne(ks, i);
    }
  }

  lemma {:induction false} KeyLeqTrans(a: Key, b: Key, c: Key)
    requires KeyLeq(a, b) && KeyLeq(b, c)
    ensures KeyLeq(a, c)
    decreases |a|
  {
    if a != [] && a[0] == b[0] == c[0] {
      KeyLeqTrans(a[1..], b[1..], c[1..]);
    }
  }

  lemma {:induction false} KeyLeqBoth(a: Key, b: Key)
    requires KeyLeq(a, b) && KeyLeq(b, a)
    ensures a == b
    decreases |a|
  {
    if a != [] {
      KeyLeqBoth(a[1..], b[1..]);
      assert a == [a[0]] + a[1..] && b == [b[0]] + b[1..];
    }
  }

  lemma {:induction false} KeysOrdered(ks: Keyset, i: nat, j: nat)
    requires ks.Valid() && WellFormed(ks) && i <= j < |ks.keys|
    ensures KeyLeq(ks.keys[i], ks.keys[j])
    decreases j
  {
    if i < j {
      KeysOrdered(ks, i, j - 1);
      hide KeyLeq;
      assert Follows(ks, j);
      KeyLeqTrans(ks.keys[i], ks.keys[j - 1], ks.keys[j]);
    } else {
      KeyLeqSame(ks.keys[i]);
    }
  }

  /** In order, equal keys stand together. */
  lemma {:induction false} EqualTogether(ks: Keyset, f: nat, i: nat)
    requires ks.Valid() && WellFormed(ks) && f < i < |ks.keys|
    ensures ks.keys[f] == ks.keys[i] ==> ks.keys[i - 1] == ks.keys[i]
  {
    hide KeyLeq, WellFormed;
    if ks.keys[f] == ks.keys[i] {
      KeysOrdered(ks, f, i - 1);
      KeysOrdered(ks, i - 1, i);
      KeyLeqBoth(ks.keys[i - 1], ks.keys[i]);
    }
  }

  lemma {:induction false} PrefixOrder(s: Key, t: Key)
    requires |s| < |t| && s == t[..|s|]
    ensures KeyLeq(s, t)
  {
    KeyLeqFrom(s, t, |s|);
  }

  // Steps of the builds.

  lemma {:induction false} WholeInRange(ks: Keyset)
    requires ks.Valid()
    ensures InRange(ks, 0, |ks.keys|, 0)
    ensures |ks.keys| == 0 ==> RangeDict(ks, 0, 0, 0) == map[] && RangeOk(ks, 0, 0, 0)
    ensures |ks.keys| > 0 ==> RangeDict(ks, 0, |ks.keys|, 0) != map[]
  {
    if |ks.keys| > 0 {
      RangeCovers(ks, 0, |ks.keys|, 0, 0);
    }
  }

  ghost function LongestKey(keys: seq<Key>): (r: nat)
    ensures forall i :: 0 <= i < |keys| ==> |keys[i]| <= r
  {
    if keys == [] then 0
    else
      var r := LongestKey(keys[..|keys| - 1]);
      assert forall i :: 0 <= i < |keys| - 1 ==> keys[..|keys| - 1][i] == keys[i];
      if |keys[|keys| - 1]| > r then |keys[|keys| - 1]| else r
  }

  lemma {:induction false} KeysetWeight(ks: Keyset)
    requires ks.Valid()
    ensures InRange(ks, 0, |ks.keys|, 0)
    ensures Weight(KeysetDict(ks)) <= KeysetBytes(ks.keys)
  {
    hide Weight, KeysetBytes;
    RangeWeight(ks, |ks.keys|);
    GraphWeight(ks, |ks.keys|);
    assert ks.keys[..|ks.keys|] == ks.keys;
  }

  lemma {:induction false} RootKept(before: map<nat, Dict>, after: map<nat, Dict>, d: Dict)
    requires Extends(before, after) && before == map[0 := d]
    ensures 0 in after && after[0] == d
  {
    assert 0 in before;
  }

  lemma {:induction false} NoKeys(ks: Keyset)
    requires ks.Valid()
    ensures FirstOutcome(ks, 0) == Built && GraphDict(ks, 0) == map[] && Overrode(ks, 0) == 0
    ensures Before(ks, 0) == None
  {
  }

  /** One more key in the map, and in the report. */
  lemma {:induction false} NextKey(ks: Keyset, i: nat)
    requires ks.Valid() && i < |ks.keys| && FirstOutcome(ks, i) == Built
    ensures FirstOutcome(ks, i + 1) == KeyOutcome(ks, i)
    ensures var d := GraphDict(ks, i);
      GraphDict(ks, i + 1) == if Stores(ks, i) then d[ks.keys[i] := Stored(ks, i)] else d
    ensures Overrode(ks, i + 1) == Overrode(ks, i) + if Overrides(ks, i) then 1 else 0
    ensures Before(ks, i + 1) == if Dropped(ks, i) then Before(ks, i) else Some(ks.keys[i])
    ensures Dropped(ks, i) ==> !Overrides(ks, i) && !Stores(ks, i)
  {
    hide KeyOutcome;
  }

  /** The path spells the last key that is not dropped. */
  ghost predicate PathOf(levels: seq<Level>, last: Option<Key>) {
    if last.None? then levels == [] else levels != [] && LastOf(levels) == last.value
  }

  /** insert notices a zero byte exactly where the key still agrees with the last one. */
  lemma {:induction false} NulMet(last: Option<Key>, key: Key, levels: seq<Level>)
    requires PathOf(levels, last)
    ensures last.Some? && NulMeets(last.value, key) <==> NulOnPath(levels, key)
  {
    if last.Some? {
      LastOfBytes(levels);
      forall k | 0 <= k < |key| && key[k] == 0
        ensures k <= |last.value| && key[..k] == last.value[..k] <==> k < |levels| && Agree(levels, key, k)
      {
        AgreesWith(levels, last.value, key, k);
      }
      hide Agree, LastOf;
      if NulOnPath(levels, key) {
        var k :| 0 <= k < |key| && key[k] == 0 && k < |levels| && Agree(levels, key, k);
        assert key[..k] == last.value[..k];
      }
      if NulMeets(last.value, key) {
        var k :| 0 <= k < |key| && k <= |last.value| && key[k] == 0 && key[..k] == last.value[..k];
        assert k < |levels| && Agree(levels, key, k);
      }
    }
  }

  /** The path and the byte after a key decide what happens to it. */
  lemma {:induction false} FollowingMet(last: Option<Key>, key: Key, following: Byte, levels: seq<Level>)
    requires PathOf(levels, last) && PathEnds(levels)
    ensures SlipsOrder(levels, key, following) <==>
      last.Some? && (DropsOut(last.value, key, following) || GoesBehind(last.value, key, following))
    ensures Misplaced(levels, key, following) <==> last.Some? && GoesBehind(last.value, key, following)
    ensures TakenAgain(levels, key, following) <==> last == Some(key) && following != 0
  {
    if last.Some? {
      LastOfBytes(levels);
      LastKeyMet(levels, key);
      if |key| < |last.value| {
        WholeKeyAgrees(levels, last.value, key);
        if Agree(levels, key, |key|) {
          NulWithin(levels, last.value, key);
        }
      }
      hide NulOnPath, PathEnds;
    }
  }

  lemma {:induction false} NulWithin(levels: seq<Level>, last: Key, key: Key)
    requires |levels| == |last| + 1 && |key| < |last| && Agree(levels, key, |key|)
    ensures NulOnPath(levels, key) <==> !NulFreeKey(key)
  {
    if !NulFreeKey(key) {
      var k :| 0 <= k < |key| && key[k] == 0;
      assert Agree(levels, key, k);
    }
  }

  lemma {:induction false} WholeKeyAgrees(levels: seq<Level>, last: Key, key: Key)
    requires |levels| == |last| + 1 && forall j :: 0 <= j < |last| ==> last[j] == levels[j].label_
    requires |key| < |last|
    ensures key == last[..|key|] <==> Agree(levels, key, |key|)
  {
    if Agree(levels, key, |key|) {
      assert forall j :: 0 <= j < |key| ==> key[j] == last[j];
    }
    if key == last[..|key|] {
      assert forall j :: 0 <= j < |key| ==> key[j] == last[..|key|][j] == last[j];
    }
  }

  lemma {:induction false} AgreesWith(levels: seq<Level>, last: Key, key: Key, k: nat)
    requires |levels| == |last| + 1 && forall j :: 0 <= j < |last| ==> last[j] == levels[j].label_
    requires k < |key|
    ensures k <= |last| && key[..k] == last[..k] <==> k < |levels| && Agree(levels, key, k)
  {
    if k <= |last| {
      if key[..k] == last[..k] {
        assert forall j :: 0 <= j < k ==> key[j] == key[..k][j] && last[..k][j] == last[j];
      }
      if Agree(levels, key, k) {
        assert forall j :: 0 <= j < k ==> key[j] == last[j];
        assert key[..k] == last[..k];
      }
    }
  }

  lemma {:induction false} AcceptedValues(ks: Keyset)
    requires ks.Valid() && Accepted(ks)
    ensures forall i :: 0 <= i < |ks.keys| ==> ks.Value(i) >= 0
  {
    hide NulFreeKey, KeyLeq, Keyset.Value;
    forall i | 0 <= i < |ks.keys|
      ensures ks.Value(i) >= 0
    {
      assert KeyAccepted(ks, i);
    }
  }
}
