/**
  Which builds of the word graph return: those with few overriding keys, and those with few states.
 */
module GraphRooms {
  import opened Dictionary
  import opened Keysets
  import opened KeysetRanges
  import opened DawgLevels
  import opened DawgGraphs
  import opened DawgTables
  import opened DawgStores
  import opened DawgWalks
  import opened DawgRuns
  import opened Reports
  import opened GraphRuns

  // The walk of one key.

  /** Where an accepted key leaves the path, or ends on it. */
  lemma {:induction false} WalkLeaves(levels: seq<Level>, key: Key, following: Byte, k: nat)
    requires levels != [] && PathEnds(levels) && NulFreeKey(key) && CodeOutcome(levels, key, following) == Built
    requires k <= |key| && Agree(levels, key, k)
    ensures var r := LeavesPath(levels, key, following, k);
      if r > |key| then MeetsPath(levels, key) && levels[|key|].label_ == following
      else && r < |levels| && Agree(levels, key, r) && levels[r].label_ < Peek(key, following, r)
           && (r == |key| ==> MeetsPath(levels, key))
    decreases |key| - k
  {
    hide CodeOutcome, MeetsPath, PathEnds;
    PathNotOver(levels, key, k);
    if levels[k].label_ != Peek(key, following, k) {
      WalkStops(levels, key, following, k);
    } else if k == |key| {
      WalkEnds(levels, key, following);
    } else {
      WalkLeaves(levels, key, following, k + 1);
    }
  }

  /** The path after an insertion spells the key. */
  lemma {:induction false} InsertedEnds(levels: seq<Level>, key: Key, k: nat, group: seq<Arc>, after: seq<Level>)
    requires k < |levels| && k <= |key| && Agree(levels, key, k) && NulFreeKey(key)
    requires after == levels[..k] + [Level(group, KeyByte(key, k))] + Fresh(Terminated(key)[k + 1..])
    ensures PathEnds(after) && PathOf(after, Some(key))
  {
    assert |after| == |key| + 1;
    forall i | 0 <= i < |after|
      ensures after[i].label_ == KeyByte(key, i)
    {
    }
    EndsOf(after, key);
  }

  lemma {:induction false} EndsOf(levels: seq<Level>, key: Key)
    requires |levels| == |key| + 1 && NulFreeKey(key)
    requires forall i :: 0 <= i < |levels| ==> levels[i].label_ == KeyByte(key, i)
    ensures PathEnds(levels) && PathOf(levels, Some(key))
  {
    LastOfBytes(levels);
    assert LastOf(levels) == key;
  }

  // Counting over a whole run.

  /** The bytes, terminators counted, of the keys that are neither dropped nor given again. */
  ghost function NewBytes(ks: Keyset, n: nat): nat
    requires n <= |ks.keys| == |ks.following|
  {
    if n == 0 then 0
    else NewBytes(ks, n - 1) + if Again(ks, n - 1) || Dropped(ks, n - 1) then 0 else |ks.keys[n - 1]| + 1
  }

  /** What is known of a draft after the first n keys: the path, and the counts. */
  ghost predicate DraftFits(d: Draft, last: Option<Key>, overrode: nat, bytes: nat) {
    && PathEnds(d.levels) && PathOf(d.levels, last)
    && Counts(d.store, d.levels, overrode) && |d.store.added| + |d.levels| <= bytes
  }

  lemma {:induction false} FirstFits()
    ensures DraftFits(FirstDraft(), None, 0, 0)
  {
    OccupiedEmpty(EmptySlots(INITIAL_TABLE_SIZE));
    hide EmptySlots, Occupied;
    var groups: map<nat, seq<Arc>> := map[];
    assert |groups| == 0;
  }

  lemma {:induction false} FirstInserted(d: Draft, key: Key, overrode: nat)
    requires Counts(d.store, d.levels, overrode) && d.levels == [] && NulFreeKey(key)
    ensures Counts(d.store, Fresh(Terminated(key)), overrode)
    ensures PathEnds(Fresh(Terminated(key))) && PathOf(Fresh(Terminated(key)), Some(key))
  {
    hide StoreFits, Occupied;
    assert [] + Fresh(Terminated(key)) == Fresh(Terminated(key));
    FreshAfter(d.store.groups, d.store.added, [], overrode, Terminated(key));
    EndsOf(Fresh(Terminated(key)), key);
  }

  /** A key met on the path to its end is the last key, or is dropped. */
  lemma {:induction false} MetFits(levels: seq<Level>, last: Option<Key>, key: Key, following: Byte)
    requires levels != [] && PathOf(levels, last) && PathEnds(levels) && NulFreeKey(key)
    requires MeetsPath(levels, key) && levels[|key|].label_ == following
    requires last.Some? && !GoesBehind(last.value, key, following)
    ensures if following == 0 then last == Some(key) else DropsOut(last.value, key, following)
    ensures following == 0 ==> !DropsOut(last.value, key, following)
    ensures following != 0 ==> last != Some(key)
  {
    FollowingMet(last, key, following, levels);
    MetNulFree(levels, key);
    WalkEnds(levels, key, following);
  }

  /** A key that leaves the path. */
  lemma {:induction false} BranchFits(d: Draft, last: Option<Key>, key: Key, following: Byte, value: nat, k: nat,
                                      overrode: nat, bytes: nat)
    requires DraftFits(d, last, overrode, bytes) && (overrode <= MANY_STRAYS || bytes <= FIRST_EXPANSION)
    requires NulFreeKey(key) && d.levels != [] && last.Some? && !GoesBehind(last.value, key, following)
    requires k < |d.levels| && k <= |key| && Agree(d.levels, key, k) && d.levels[k].label_ < Peek(key, following, k)
    requires k == |key| ==> MeetsPath(d.levels, key)
    ensures 0 < |d.store.table| && !DropsOut(last.value, key, following)
    ensures last == Some(key) ==> following != 0
    ensures var r := InsertAt(d, key, value, k); var again := last == Some(key);
      && r.Some?
      && DraftFits(r.value, Some(key), overrode + if again then 1 else 0, bytes + if again then 0 else |key| + 1)
  {
    hide Counts, NulFreeKey, Agree, MeetsPath, TakenAgain, DropsOut, GoesBehind, PathEnds, FlushTo, Group, Fresh;
    FollowingMet(last, key, following, d.levels);
    CountsOk(d.store, d.levels, overrode);
    BranchOrder(d.levels, key, following, k);
    InsertCounts(d, key, value, k, overrode);
    KeyByteZero(key, k);
    var r := InsertAt(d, key, value, k);
    InsertedEnds(d.levels, key, k, r.value.levels[k].closed, r.value.levels);
  }

  /** One inserted key. */
  lemma {:induction false} InsertFits(d: Draft, last: Option<Key>, key: Key, following: Byte, value: nat, overrode: nat,
                                      bytes: nat)
    requires DraftFits(d, last, overrode, bytes) && (overrode <= MANY_STRAYS || bytes <= FIRST_EXPANSION)
    requires NulFreeKey(key) && key != [] && CodeOutcome(d.levels, key, following) == Built
    requires last.Some? ==> !GoesBehind(last.value, key, following)
    ensures 0 < |d.store.table|
    ensures var r := InsertInto(d, key, following, value);
      var drops, again := last.Some? && DropsOut(last.value, key, following), last == Some(key);
      && r.Some?
      && DraftFits(r.value, if drops then last else Some(key), overrode + if again && following != 0 then 1 else 0,
                   bytes + if again || drops then 0 else |key| + 1)
  {
    hide Counts, NulFreeKey, MeetsPath, GoesBehind, DropsOut, PathEnds, CodeOutcome, Fresh, InsertAt, Peek, LeavesPath;
    CountsOk(d.store, d.levels, overrode);
    if d.levels == [] {
      FirstInserted(d, key, overrode);
    } else {
      WalkLeaves(d.levels, key, following, 0);
      var k := LeavesPath(d.levels, key, following, 0);
      if k > |key| {
        MetFits(d.levels, last, key, following);
      } else {
        BranchFits(d, last, key, following, value, k, overrode, bytes);
      }
    }
  }

  lemma {:induction false} CountsGrow(ks: Keyset, i: nat, n: nat)
    requires i <= n <= |ks.keys| == |ks.following|
    ensures Overrode(ks, i) <= Overrode(ks, n) && NewBytes(ks, i) <= NewBytes(ks, n)
    decreases n
  {
    hide Overrides, Again, Dropped;
    if i < n {
      CountsGrow(ks, i, n - 1);
    }
  }

  /** What insert reports, in terms of the path and of the keyset. */
  lemma {:induction false} OutcomeMet(ks: Keyset, i: nat, levels: seq<Level>)
    requires ks.Valid() && i < |ks.keys| && PathOf(levels, Before(ks, i)) && PathEnds(levels)
    requires KeyOutcome(ks, i) == Built
    ensures ks.keys[i] != [] && ks.Value(i) >= 0 && CodeOutcome(levels, ks.keys[i], ks.following[i]) == Built
  {
    hide NulMeets, DropsOut, GoesBehind, NulOnPath, KeyLeq, NulFreeKey, MeetsPath, SlipsOrder, PathEnds, Before;
    hide Keyset.Value;
    NulMet(Before(ks, i), ks.keys[i], levels);
    FollowingMet(Before(ks, i), ks.keys[i], ks.following[i], levels);
  }

  /** Few keys override another, or the keys have few bytes. */
  ghost predicate FewKeys(ks: Keyset)
    requires ks.Valid()
  {
    Overrode(ks, |ks.keys|) <= MANY_STRAYS || NewBytes(ks, |ks.keys|) <= FIRST_EXPANSION
  }

  ghost predicate RunOk(ks: Keyset, n: nat)
    requires ks.Valid() && n <= |ks.keys|
  {
    && Run(ks, n).Some?
    && (FirstOutcome(ks, n) == Built ==> DraftFits(Run(ks, n).value, Before(ks, n), Overrode(ks, n), NewBytes(ks, n)))
  }

  lemma {:induction false} RunFits(ks: Keyset, n: nat)
    requires ks.Valid() && Placeable(ks) && FewKeys(ks) && n <= |ks.keys|
    ensures RunOk(ks, n)
    decreases n
  {
    hide DraftFits, FirstDraft, Placeable, FewKeys, InsertInto, FirstOutcome, Overrides, Again, Dropped;
    if n == 0 {
      FirstFits();
    } else {
      RunFits(ks, n - 1);
      if FirstOutcome(ks, n) == Built {
        StepFits(ks, n - 1);
      }
    }
  }

  lemma {:induction false} StepFits(ks: Keyset, i: nat)
    requires ks.Valid() && Placeable(ks) && FewKeys(ks) && i < |ks.keys|
    requires RunOk(ks, i) && FirstOutcome(ks, i + 1) == Built
    ensures RunOk(ks, i + 1)
  {
    hide Counts, NulFreeKey, GoesBehind, DropsOut, PathEnds, CodeOutcome, InsertInto, Placeable, KeyOutcome;
    var d, key := Run(ks, i).value, ks.keys[i];
    EachPlaceable(ks, i);
    NextKey(ks, i);
    OutcomeMet(ks, i, d.levels);
    CountsGrow(ks, i, |ks.keys|);
    InsertFits(d, Before(ks, i), key, ks.following[i], Stored(ks, i), Overrode(ks, i), NewBytes(ks, i));
  }

  lemma {:induction false} EachPlaceable(ks: Keyset, i: nat)
    requires Placeable(ks) && i < |ks.keys| && FirstOutcome(ks, i + 1) == Built
    ensures FirstOutcome(ks, i) == Built && NulFreeKey(ks.keys[i]) && !Misplaces(ks, i)
  {
    hide KeyOutcome;
  }

  /** Every call returns, for keys of which few override another, and for those that have few bytes. */
  lemma {:induction false} FewKeysReturn(ks: Keyset)
    requires ks.Valid() && Placeable(ks) && FewKeys(ks)
    ensures HasRoom(ks) && DawgInput(ks)
  {
    hide Run, FirstOutcome, Placeable, Counts;
    var n: nat := |ks.keys|;
    RunFits(ks, n);
    if FirstOutcome(ks, n) == Built {
      var d := Run(ks, n).value;
      FlushCounts(d.store, d.levels, d.target, 0, Overrode(ks, n));
    }
  }

  // Keysets that can be built.

  /** Accepted keys are input for the word graph, if few of them override another or they have few bytes. */
  lemma {:induction false} AcceptedInput(ks: Keyset)
    requires ks.Valid() && Accepted(ks) && ks.values.Some? && FewKeys(ks)
    ensures DawgInput(ks)
  {
    hide Accepted, Placeable, FewKeys, HasRoom;
    AcceptedPlaceable(ks);
    FewKeysReturn(ks);
  }

  /** A zero byte after every key is enough: no key is dropped or overrides another, and the first pairs are stored. */
  lemma {:induction false} ZeroTerminated(ks: Keyset)
    requires ks.Valid() && WellFormed(ks) && ZeroFollows(ks)
    ensures FirstKept(ks) && (ks.values.Some? ==> DawgInput(ks))
  {
    AcceptedForms(ks);
    hide WellFormed, Accepted, DawgInput, FirstKept, NewBytes;
    ZeroKeepsFirst(ks);
    NothingDropped(ks, |ks.keys|);
    if ks.values.Some? {
      AcceptedInput(ks);
    }
  }

  /**
    Keys of nonzero bytes with a zero byte after every one are input for the word graph,
    in order or not and whatever their values.
   */
  lemma {:induction false} ZeroFreeInput(ks: Keyset)
    requires ks.Valid() && ks.values.Some? && ZeroFollows(ks)
    requires forall i :: 0 <= i < |ks.keys| ==> NulFreeKey(ks.keys[i])
    ensures DawgInput(ks)
  {
    hide NulFreeKey, FirstOutcome, Before, NewBytes;
    NothingDropped(ks, |ks.keys|);
    assert Placeable(ks);
    FewKeysReturn(ks);
  }

  /**
    The first pair is not always the one that is stored: of two pairs with the key
    "ab" in front of a "z" the second one is, although the keys are well formed.
   */
  lemma {:induction false} LastPairStored()
    ensures var ks := Keyset([[97], [97, 98], [97, 98]], [0, 122, 122], true, Some([5, 7, 9]));
      && DawgInput(ks) && WellFormed(ks)
      && [97, 98] in KeysetDict(ks) && KeysetDict(ks)[[97, 98]] == 9 != ks.Value(1)
      && !FirstKept(ks)
  {
    var a: Key, ab: Key := [97], [97, 98];
    var ks := Keyset([a, ab, ab], [0, 122, 122], true, Some([5, 7, 9]));
    assert ks.Valid();
    KeyLeqSame(ab);
    PrefixOrder(a, ab);
    assert forall i :: 0 <= i < 3 ==> KeyAccepted(ks, i) && Follows(ks, i);
    assert WellFormed(ks);
    assert ks.keys[1] !in ks.keys[..1];
    hide WellFormed;
    AcceptedForms(ks);
    WellFormedBefore(ks, 2);
    hide Before, Accepted;
    OverrodeLess(ks, 3);
    AcceptedInput(ks);
    FirstPairs(ks);
    hide DawgInput, FirstKept;
    assert Stores(ks, 2) && Stored(ks, 2) == 9;
    assert KeysetDict(ks)[ab] == 9;
  }

  lemma {:induction false} OverrodeLess(ks: Keyset, n: nat)
    requires n <= |ks.keys| == |ks.following|
    ensures Overrode(ks, n) <= n
    decreases n
  {
    hide Overrides;
    if n > 0 {
      OverrodeLess(ks, n - 1);
    }
  }

  /**
    A keyset that is not in order and is built all the same: "ab" after "abd" is
    dropped in front of a "d", and the key after it is compared with "abd".
   */
  lemma {:induction false} KeyDropped()
    ensures var ks := Keyset([[97, 98, 100], [97, 98], [97, 98, 101]], [0, 100, 0], true, Some([5, 7, 9]));
      && DawgInput(ks) && Accepted(ks) && !WellFormed(ks)
      && [97, 98] !in KeysetDict(ks) && [97, 98, 100] in KeysetDict(ks) && [97, 98, 101] in KeysetDict(ks)
  {
    var abd: Key, ab: Key, abe: Key := [97, 98, 100], [97, 98], [97, 98, 101];
    var ks := Keyset([abd, ab, abe], [0, 100, 0], true, Some([5, 7, 9]));
    assert ks.Valid();
    assert Before(ks, 1) == Some(abd) && ab == abd[..2];
    assert Dropped(ks, 1) && Before(ks, 2) == Some(abd);
    KeyLeqFrom(abd, abe, 2);
    assert forall i :: 0 <= i < 3 ==> KeyAccepted(ks, i) && InPlace(ks, i);
    assert Accepted(ks);
    assert !Dropped(ks, 0) && !Dropped(ks, 2);
    AcceptedForms(ks);
    OverrodeLess(ks, 3);
    DictKeys(ks);
    hide WellFormed, Before, KeyLeq, HasRoom;
    AcceptedInput(ks);
    assert !IsKept(ks, ab);
    assert IsKept(ks, ks.keys[0]) && IsKept(ks, ks.keys[2]);
  }
}
