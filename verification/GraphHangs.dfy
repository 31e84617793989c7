/**
  A build that does not return: one key given so often that the strays it leaves fill
  the hash table, as soon as there are enough states beside them.
 */
module GraphHangs {
  import opened Dictionary
  import opened Keysets
  import opened KeysetRanges
  import opened DawgLevels
  import opened DawgGraphs
  import opened DawgTables
  import opened DawgStores
  import opened DawgWalks
  import opened DawgRuns
  import opened Reports
  import opened GraphRuns
  import opened GraphRooms

  // Freezing new states.

  /** A round of flush for arcs that are not in the table, with a position left. */
  lemma {:induction false} AddsNew(s: Store, arcs: seq<Arc>)
    requires StoreFits(s) && arcs != [] && Expanded(s).Some?
    requires Occupied(Expanded(s).value.table) < |Expanded(s).value.table|
    requires NoEntry(Expanded(s).value.table, s.groups, arcs)
    ensures var e := Expanded(s).value; var r := FreezeArcs(s, arcs);
      && r.Froze? && r.id == s.size && StoreFits(r.store)
      && r.store.groups == s.groups + NewStates(s.size, arcs) && r.store.added == s.added + {s.size}
      && r.store.size == s.size + |arcs| && |r.store.table| == |e.table|
      && |r.store.added| == |s.added| + 1 && Occupied(r.store.table) == Occupied(e.table) + 1
      && forall p :: 0 <= p < |e.table| ==> r.store.table[p] == e.table[p] || r.store.table[p] == s.size
  {
    hide Occupied, FreezeArcs, StateHash, NewStates, Probe, Expanded;
    FitsOk(s);
    ExpandReturns(s);
    FreezeReturns(s, arcs);
    var e, r := Expanded(s).value, FreezeArcs(s, arcs);
    var d: nat :| FreezesAt(e, arcs, d, r);
    var p := Probe(StateHash(arcs) % |e.table|, d, |e.table|);
    assert e.table[p] == 0;
    hide MustExpand;
    FreezeAtOk(e, arcs, p);
  }

  lemma {:induction false} FitsOk(s: Store)
    requires StoreFits(s)
    ensures 0 < |s.table|
  {
  }

  /** The size of a graph with one more state. */
  lemma {:induction false} GroupsAdded(groups: map<nat, seq<Arc>>, size: nat, arcs: seq<Arc>)
    requires arcs != [] && forall g :: g in groups ==> g < size
    ensures |groups + NewStates(size, arcs)| == |groups| + 1 + Strays(arcs)
  {
    NewKeys(size, arcs);
    hide NewStates;
    NewIdsAre(size, arcs);
    NewIdsSize(size, arcs);
    MergeSize(groups, NewStates(size, arcs));
  }

  /** The strays that the keys leave. */
  const CROWD: nat := MANY_STRAYS + 1

  /** All strays are there; they get into the table when that is expanded. */
  ghost predicate Crowd(s: Store) {
    && StoreFits(s) && |s.groups| == |s.added| + CROWD
    && (if |s.added| <= FIRST_EXPANSION
        then |s.table| == INITIAL_TABLE_SIZE && Occupied(s.table) == |s.added|
        else |s.table| == 2 * INITIAL_TABLE_SIZE && Occupied(s.table) == |s.added| + CROWD)
  }

  /** No arc leads to g or a later state. */
  ghost predicate Newest(groups: map<nat, seq<Arc>>, g: nat) {
    forall x, j :: x in groups && 0 <= j < |groups[x]| && groups[x][j].c != 0 ==> groups[x][j].target < g
  }

  lemma {:induction false} NoArcYet(groups: map<nat, seq<Arc>>, g: nat, c: Byte, table: seq<nat>)
    requires Newest(groups, g) && c != 0
    ensures NoEntry(table, groups, [Arc(c, g)])
  {
    forall x | x in groups
      ensures groups[x] != [Arc(c, g)]
    {
      if |groups[x]| == 1 {
        assert groups[x][0].c != 0 ==> groups[x][0].target < g;
      }
    }
  }

  /** When the next table is full. */
  const FULL: nat := 2 * INITIAL_TABLE_SIZE - CROWD

  /** The arcs are not in the table in which they are looked up. */
  ghost predicate Unknown(s: Store, arcs: seq<Arc>)
    requires 0 < |s.table|
  {
    Expanded(s).Some? ==> NoEntry(Expanded(s).value.table, s.groups, arcs)
  }

  /** One more state without strays: the crowd grows, as long as the table is not full. */
  lemma {:induction false} CrowdGrows(s: Store, a: Arc)
    requires 0 < |s.table| && Crowd(s) && |s.added| < FULL && Unknown(s, [a])
    ensures var r := FreezeArcs(s, [a]);
      && r.Froze? && r.id == s.size && Crowd(r.store) && |r.store.added| == |s.added| + 1
      && r.store.size == s.size + 1 && r.store.groups == s.groups[s.size := [a]]
  {
    hide Occupied, FreezeArcs, NewStates, StateHash, NoEntry, Entries;
    ExpandReturns(s);
    AddsNew(s, [a]);
    StrictState(s.size, [a]);
    GroupsAdded(s.groups, s.size, [a]);
    assert s.groups + map[s.size := [a]] == s.groups[s.size := [a]];
  }

  lemma {:induction false} CrowdFull(s: Store, a: Arc)
    requires 0 < |s.table| && Crowd(s) && |s.added| == FULL && Unknown(s, [a])
    ensures FreezeArcs(s, [a]).Hangs?
  {
    hide Occupied, FreezeArcs, StateHash, NoEntry, Entries;
    ExpandReturns(s);
    FreezeReturns(s, [a]);
  }

  /** Levels with one open arc each, above those that stay. */
  ghost predicate Bare(levels: seq<Level>, keep: nat) {
    forall i :: keep <= i < |levels| ==> levels[i].closed == [] && levels[i].label_ != 0
  }

  /** A long enough chain of new states, each with one arc to the one before, fills the table. */
  lemma {:induction false} ChainHangs(s: Store, levels: seq<Level>, g: nat, keep: nat)
    requires 0 < |s.table| && Crowd(s) && Newest(s.groups, g) && g < s.size && |s.added| <= FULL
    requires Bare(levels, keep) && keep <= |levels| && |s.added| + (|levels| - keep) > FULL
    ensures FlushTo(s, levels, g, keep).Hangs?
    decreases |levels|
  {
    hide Crowd, FreezeArcs, Newest, NoEntry;
    var l, upper := levels[|levels| - 1], levels[..|levels| - 1];
    var a := Arc(l.label_, g);
    assert Group(l, g) == [a];
    UnknownArc(s, g, l.label_);
    if |s.added| == FULL {
      CrowdFull(s, a);
    } else {
      CrowdGrows(s, a);
      var r := FreezeArcs(s, [a]);
      NewestNext(s.groups, s.size, g, l.label_);
      ChainHangs(r.store, upper, r.id, keep);
    }
  }

  lemma {:induction false} UnknownArc(s: Store, g: nat, c: Byte)
    requires 0 < |s.table| && Newest(s.groups, g) && c != 0
    ensures Unknown(s, [Arc(c, g)])
  {
    hide NoEntry, Expanded, Newest;
    if Expanded(s).Some? {
      NoArcYet(s.groups, g, c, Expanded(s).value.table);
    }
  }

  lemma {:induction false} NewestNext(groups: map<nat, seq<Arc>>, size: nat, g: nat, c: Byte)
    requires Newest(groups, g) && g < size
    ensures Newest(groups[size := [Arc(c, g)]], size)
  {
  }

  // The keys.

  const COPIES: nat := CROWD + 1

  function Chain(n: nat): (k: Key)
    ensures |k| == n && forall i :: 0 <= i < n ==> k[i] == 98
  {
    seq(n, _ => 98)
  }

  function Zeros(n: nat): (arcs: seq<Arc>)
    ensures |arcs| == n && forall i :: 0 <= i < n ==> arcs[i] == Arc(0, 0)
  {
    seq(n, _ => Arc(0, 0))
  }

  /** "a" 515 times, in front of a "b"; then n times the byte "b"; then "c". */
  function CrowdedKeys(n: nat): (ks: Keyset)
    ensures |ks.keys| == |ks.following| == COPIES + 2 && ks.hasLengths && ks.values.Some?
    ensures forall i :: 0 <= i < COPIES ==> ks.keys[i] == [97] && ks.following[i] == 98
    ensures ks.keys[COPIES] == Chain(n) && ks.keys[COPIES + 1] == [99]
    ensures ks.following[COPIES] == 0 && ks.following[COPIES + 1] == 0
    ensures ks.Valid() && forall i :: 0 <= i < COPIES + 2 ==> ks.Value(i) == 0
  {
    Keyset(seq(COPIES + 2, i => if i < COPIES then [97] else if i == COPIES then Chain(n) else [99]),
           seq(COPIES + 2, i => if i < COPIES then 98 else 0), true, Some(seq(COPIES + 2, _ => 0)))
  }

  lemma {:induction false} CrowdedForm(n: nat)
    requires n > 0
    ensures WellFormed(CrowdedKeys(n)) && Placeable(CrowdedKeys(n))
    ensures forall m :: 0 <= m <= COPIES + 2 ==> FirstOutcome(CrowdedKeys(n), m) == Built
  {
    var ks := CrowdedKeys(n);
    hide CrowdedKeys, Chain, Keyset.Value;
    KeyLeqSame([97]);
    forall i | 0 <= i < COPIES + 2
      ensures KeyAccepted(ks, i) && Follows(ks, i)
    {
    }
    assert WellFormed(ks);
    hide WellFormed, KeyAccepted, InPlace;
    AcceptedForms(ks);
    AcceptedPlaceable(ks);
    forall m | 0 <= m <= COPIES + 2
      ensures FirstOutcome(ks, m) == Built
    {
      OutcomesBuilt(ks, m);
    }
  }

  // The run.

  /** After m copies of the first key nothing is frozen, and there are m arcs labelled 0. */
  ghost function Repeated(m: nat): Draft
    requires m > 0
  {
    Draft(FirstDraft().store, [Level([], 97), Level(Zeros(m - 1), 0)], 0)
  }

  lemma {:induction false} RepeatedFirst(key: Key)
    requires key == [97]
    ensures InsertInto(FirstDraft(), key, 98, 0) == Some(Repeated(1))
  {
    assert Terminated(key) == [97, 0];
    assert [97, 0][..1] == [97] && [97][..0] == [];
    assert Fresh([97, 0]) == [Level([], 97), Level([], 0)];
    assert Zeros(0) == [];
  }

  lemma {:induction false} RepeatedNext(key: Key, m: nat)
    requires key == [97] && m > 0
    ensures InsertInto(Repeated(m), key, 98, 0) == Some(Repeated(m + 1))
  {
    var d := Repeated(m);
    assert LeavesPath(d.levels, key, 98, 1) == 1;
    assert LeavesPath(d.levels, key, 98, 0) == 1;
    FlushDone(d.store, d.levels, d.target, 2);
    assert Terminated(key)[2..] == [] && Fresh([]) == [];
    assert Group(d.levels[1], 0) == Zeros(m);
    var lower := d.levels[..2];
    assert lower[..1] == [Level([], 97)];
    hide FlushTo, Zeros, Group, FirstDraft, InsertAt;
    InsertIs(d, key, 0, 1, d.store, 0, Repeated(m + 1).levels);
  }

  lemma {:induction false} RunRepeated(n: nat, m: nat)
    requires 0 < n && 0 < m <= COPIES
    ensures Run(CrowdedKeys(n), m) == Some(Repeated(m))
    decreases m
  {
    var ks := CrowdedKeys(n);
    CrowdedForm(n);
    hide CrowdedKeys, WellFormed, Placeable, FirstOutcome, InsertInto, Repeated, FirstDraft;
    if m == 1 {
      RunStart(ks);
      RepeatedFirst(ks.keys[0]);
    } else {
      RunRepeated(n, m - 1);
      RepeatedNext(ks.keys[m - 1], m - 1);
    }
  }

  lemma {:induction false} ZeroStrays(n: nat)
    requires n > 0
    ensures Strays(Zeros(n)) == n - 1
    decreases n
  {
    if n > 1 {
      assert Zeros(n)[..n - 1] == Zeros(n - 1);
      ZeroStrays(n - 1);
    }
  }

  /** The state with all the arcs labelled 0. */
  lemma {:induction false} FirstFrozen(s0: Store, arcs: seq<Arc>) returns (s: Store)
    requires s0 == FirstDraft().store && arcs != [] && Strays(arcs) == CROWD
    ensures 0 < |s0.table| && FreezeArcs(s0, arcs) == Froze(s, 1)
    ensures 0 < |s.table| && Crowd(s) && |s.added| == 1 && s.size == |arcs| + 1
    ensures s.groups == NewStates(1, arcs)
    ensures forall p :: 0 <= p < |s.table| && s.table[p] in s.groups ==> s.groups[s.table[p]] == arcs
  {
    FirstStore();
    hide FirstDraft, Occupied, FreezeArcs, NewStates, StateHash, Expanded, Strays, Filled;
    AddsNew(s0, arcs);
    s := FreezeArcs(s0, arcs).store;
    GroupsAdded(s0.groups, 1, arcs);
    assert s0.groups + NewStates(1, arcs) == NewStates(1, arcs);
    NewKeys(1, arcs);
    FirstOfNew(1, arcs);
  }

  lemma {:induction false} FirstOfNew(g: nat, arcs: seq<Arc>)
    requires arcs != []
    ensures g in NewStates(g, arcs) && NewStates(g, arcs)[g] == arcs
  {
    assert StartsAt(g, arcs, g) && arcs[0..] == arcs;
  }

  lemma {:induction false} FirstStore()
    ensures var s := FirstDraft().store;
      && StoreFits(s) && s.groups == map[] && s.added == {} && s.size == 1 && |s.table| == INITIAL_TABLE_SIZE
      && Occupied(s.table) == 0 && Expanded(s) == Some(s) && forall p :: 0 <= p < |s.table| ==> s.table[p] == 0
  {
    FirstFits();
    OccupiedEmpty(FirstDraft().store.table);
    hide EmptySlots, Occupied, Filled;
  }

  /** The path of the chain, above the state that the first key leads to. */
  ghost function Chained(s: Store, n: nat): Draft
    requires n > 0
  {
    Draft(s, [Level([Arc(97, 1)], 98)] + Fresh(Terminated(Chain(n))[1..]), 0)
  }

  lemma {:induction false} ChainInserted(s: Store, n: nat)
    requires n > 0 && 0 < |FirstDraft().store.table| && 0 < |s.table|
    requires FreezeArcs(FirstDraft().store, Zeros(COPIES)) == Froze(s, 1)
    ensures InsertInto(Repeated(COPIES), Chain(n), 0, 0) == Some(Chained(s, n))
  {
    hide FreezeArcs, FirstDraft;
    var d, key := Repeated(COPIES), Chain(n);
    assert LeavesPath(d.levels, key, 0, 0) == 0;
    assert Group(d.levels[1], 0) == Zeros(COPIES);
    assert Group(Level([], 97), 1) == [Arc(97, 1)];
    FlushTwo(d.store, d.levels, s);
    var lower := d.levels[..1];
    assert lower[..0] == [] && lower[0] == Level([], 97);
    hide FlushTo, Zeros, Group, InsertAt, Fresh, Chain;
    InsertIs(d, key, 0, 0, s, 1, Chained(s, n).levels);
  }

  lemma {:induction false} FlushTwo(s0: Store, levels: seq<Level>, s: Store)
    requires |levels| == 2 && 0 < |s0.table| && 0 < |s.table|
    requires FreezeArcs(s0, Group(levels[1], 0)) == Froze(s, 1)
    ensures FlushTo(s0, levels, 0, 1) == Froze(s, 1)
  {
    hide FreezeArcs, Group;
    assert |levels[..1]| == 1;
  }

  lemma {:induction false} ZerosNewest(groups: map<nat, seq<Arc>>, size: nat, g: nat)
    requires groups == NewStates(1, Zeros(COPIES))[size := [Arc(0, 0)]]
    ensures Newest(groups, g)
  {
    forall x, j | x in groups && 0 <= j < |groups[x]|
      ensures groups[x][j].c == 0
    {
      if x != size {
        assert groups[x] == Zeros(COPIES)[x - 1..];
      }
    }
  }

  lemma {:induction false} LeafUnknown(s: Store)
    requires 0 < |s.table| && Crowd(s) && |s.added| == 1
    requires forall p :: 0 <= p < |s.table| && s.table[p] in s.groups ==> s.groups[s.table[p]] == Zeros(COPIES)
    ensures Unknown(s, [Arc(0, 0)])
  {
    assert |Zeros(COPIES)| != |[Arc(0, 0)]|;
    hide Zeros, Occupied, Filled;
  }

  /** Freezing the chain below a marked level: first the leaf, then one state for each byte. */
  lemma {:induction false} ChainFlushHangs(s: Store, levels: seq<Level>)
    requires 0 < |s.table| && Crowd(s) && |s.added| == 1 && s.size == COPIES + 1
    requires s.groups == NewStates(1, Zeros(COPIES)) && Unknown(s, [Arc(0, 0)])
    requires |levels| > FULL && levels[|levels| - 1] == Level([], 0) && Bare(levels[..|levels| - 1], 1)
    ensures FlushTo(s, levels, 0, 1).Hangs?
  {
    hide Crowd, FreezeArcs, Zeros, NewStates, Bare, Unknown, Newest;
    var n := |levels| - 1;
    assert Group(levels[n], 0) == [Arc(0, 0)];
    CrowdGrows(s, Arc(0, 0));
    var r := FreezeArcs(s, [Arc(0, 0)]);
    ZerosNewest(r.store.groups, s.size, s.size);
    ChainHangs(r.store, levels[..n], s.size, 1);
  }

  lemma {:induction false} LastHangs(s: Store, n: nat)
    requires n >= FULL && 0 < |s.table| && Crowd(s) && |s.added| == 1 && s.size == COPIES + 1
    requires s.groups == NewStates(1, Zeros(COPIES)) && Unknown(s, [Arc(0, 0)])
    ensures InsertInto(Chained(s, n), [99], 0, 0) == None
  {
    hide Crowd, Newest, FreezeArcs, Zeros, NewStates, Unknown, FlushTo;
    var levels := Chained(s, n).levels;
    assert LeavesPath(levels, [99], 0, 0) == 0;
    assert levels[n] == Level([], 0) && |levels| == n + 1;
    assert Bare(levels[..n], 1);
    hide Bare;
    ChainFlushHangs(s, levels);
  }

  /**
    With n >= 1534 the build does not return, although the keys are well formed: when
    the last key is inserted, the chain of states fills the table beside the strays.
   */
  lemma {:induction false} CrowdedHangs(n: nat)
    requires n >= FULL
    ensures var ks := CrowdedKeys(n);
      && WellFormed(ks) && Placeable(ks) && Overrode(ks, |ks.keys|) == CROWD && !HasRoom(ks)
  {
    var ks := CrowdedKeys(n);
    hide WellFormed, Placeable, FirstOutcome, InsertInto, Repeated, Chained, FirstDraft, Overrode, Crowd, NewStates;
    hide Zeros, FreezeArcs, Chain, Unknown;
    CrowdedForm(n);
    CrowdedOverrode(n, COPIES + 2);
    hide CrowdedKeys;
    RunRepeated(n, COPIES);
    ZeroStrays(COPIES);
    var s := FirstFrozen(FirstDraft().store, Zeros(COPIES));
    ChainInserted(s, n);
    LeafUnknown(s);
    LastHangs(s, n);
    assert Run(ks, COPIES + 1) == Some(Chained(s, n));
    assert Run(ks, COPIES + 2) == None;
  }

  lemma {:induction false} CrowdedOverrode(n: nat, m: nat)
    requires n > 0 && m <= COPIES + 2
    ensures Overrode(CrowdedKeys(n), m) == if m == 0 then 0 else if m <= COPIES then m - 1 else COPIES - 1
    decreases m
  {
    if m > 0 {
      CrowdedOverrode(n, m - 1);
      CrowdedForm(n);
      WellFormedBefore(CrowdedKeys(n), m - 1);
      hide WellFormed, Placeable, Before, CrowdedKeys;
    }
  }

  /** The strays that overriding keys leave have room in every build exactly if there are at most 513 of them. */
  lemma {:induction false} OverridesAllowed(r: nat)
    ensures (forall ks: Keyset :: ks.Valid() && Placeable(ks) && Overrode(ks, |ks.keys|) <= r ==> HasRoom(ks))
      <==> r <= MANY_STRAYS
  {
    hide Placeable, HasRoom, Overrode;
    if r <= MANY_STRAYS {
      forall ks: Keyset | ks.Valid() && Placeable(ks) && Overrode(ks, |ks.keys|) <= r
        ensures HasRoom(ks)
      {
        FewKeysReturn(ks);
      }
    } else {
      CrowdedHangs(FULL);
      var ks := CrowdedKeys(FULL);
      hide CrowdedKeys;
      assert Placeable(ks) && Overrode(ks, |ks.keys|) <= r && !HasRoom(ks);
    }
  }
}
