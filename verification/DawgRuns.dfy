/**
  What the word-graph builder does with its states, as functions: freezing the arcs
  of a state, flushing a path, and inserting a key.

  The functions say when a call does not return: the table is full, and the loop that
  looks for a place in it goes round for ever.
 */
module DawgRuns {
  import opened Dictionary
  import opened Keysets
  import opened DawgLevels
  import opened DawgGraphs
  import opened DawgTables
  import opened DawgStores
  import opened DawgWalks

  /** The states, those of them that were added, the table, and the number of units. */
  datatype Store = Store(groups: map<nat, seq<Arc>>, added: set<nat>, table: seq<nat>, size: nat)

  /** The frozen states, and the path above them. */
  datatype Draft = Draft(store: Store, levels: seq<Level>, target: nat)

  datatype Freezing = Hangs | Froze(store: Store, id: nat)

  ghost predicate MustExpand(s: Store) {
    |s.added| + 1 >= |s.table| - |s.table| / 4
  }

  /** The store in which the next state is looked up, unless expand_table does not return. */
  ghost function Expanded(s: Store): (r: Option<Store>)
    requires 0 < |s.table|
    ensures r.Some? ==> 0 < |r.value.table| && r.value == s.(table := r.value.table)
  {
    if MustExpand(s) then
      var table := Filled(s.groups, 2 * |s.table|, s.size);
      if table.Some? then Some(s.(table := table.value)) else None
    else Some(s)
  }

  /** The state found at a position, or the new one that gets it. */
  ghost function FreezeAt(s: Store, arcs: seq<Arc>, p: nat): (r: Freezing)
    requires p < |s.table|
    ensures r.Froze? && 0 < |r.store.table|
  {
    if s.table[p] != 0 then Froze(s, s.table[p])
    else Froze(Store(s.groups + NewStates(s.size, arcs), s.added + {s.size}, s.table[p := s.size], s.size + |arcs|),
               s.size)
  }

  ghost predicate FreezesAt(s: Store, arcs: seq<Arc>, d: nat, r: Freezing)
    requires 0 < |s.table|
  {
    var start := StateHash(arcs) % |s.table|;
    && StopsAt(s.table, s.groups, arcs, start, d)
    && Probe(start, d, |s.table|) < |s.table| && r == FreezeAt(s, arcs, Probe(start, d, |s.table|))
  }

  /** One round of flush: the state with these arcs, which may be new. */
  ghost function FreezeArcs(s: Store, arcs: seq<Arc>): (r: Freezing)
    requires 0 < |s.table|
    ensures r.Froze? ==> 0 < |r.store.table|
    ensures r.Froze? ==> Expanded(s).Some? && exists d: nat :: FreezesAt(Expanded(s).value, arcs, d, r)
    ensures r.Hangs? && Expanded(s).Some? ==>
      var e := Expanded(s).value;
      forall d: nat :: !StopsAt(e.table, e.groups, arcs, StateHash(arcs) % |e.table|, d)
  {
    if Expanded(s).None? then Hangs
    else
      var e := Expanded(s).value;
      var start := StateHash(arcs) % |e.table|;
      if exists d: nat :: StopsAt(e.table, e.groups, arcs, start, d) then
        var d: nat :| StopsAt(e.table, e.groups, arcs, start, d);
        ProbeInside(start, d, |e.table|);
        var r := FreezeAt(e, arcs, Probe(start, d, |e.table|));
        assert FreezesAt(e, arcs, d, r);
        r
      else Hangs
  }

  /** flush: the levels from `keep` on are frozen. */
  ghost function FlushTo(s: Store, levels: seq<Level>, target: nat, keep: nat): (r: Freezing)
    requires 0 < |s.table|
    ensures r.Froze? ==> 0 < |r.store.table|
    decreases |levels|
  {
    if |levels| <= keep then Froze(s, target)
    else
      var r := FreezeArcs(s, Group(levels[|levels| - 1], target));
      if r.Hangs? then Hangs else FlushTo(r.store, levels[..|levels| - 1], r.id, keep)
  }

  /** The part of insert behind its first loop, for a key that leaves the path at level k. */
  ghost function InsertAt(d: Draft, key: Key, value: nat, k: nat): (r: Option<Draft>)
    requires 0 < |d.store.table| && k < |d.levels| && k <= |key|
    ensures r.Some? ==> 0 < |r.value.store.table|
  {
    var r := FlushTo(d.store, d.levels, d.target, k + 1);
    if r.Hangs? then None
    else
      var branch := Level(Group(d.levels[k], r.id), KeyByte(key, k));
      Some(Draft(r.store, d.levels[..k] + [branch] + Fresh(Terminated(key)[k + 1..]), value))
  }

  lemma {:induction false} AtMeans(d: Draft, key: Key, value: nat, k: nat)
    requires 0 < |d.store.table| && k < |d.levels| && k <= |key| && InsertAt(d, key, value, k).Some?
    ensures FlushTo(d.store, d.levels, d.target, k + 1).Froze?
  {
  }

  lemma {:induction false} InsertIs(d: Draft, key: Key, value: nat, k: nat, s: Store, t: nat, levels: seq<Level>)
    requires 0 < |d.store.table| && k < |d.levels| && k <= |key|
    requires FlushTo(d.store, d.levels, d.target, k + 1) == Froze(s, t)
    requires var lower := d.levels[..k + 1];
      levels == lower[..k] + [Level(Group(lower[k], t), KeyByte(key, k))] + Fresh(Terminated(key)[k + 1..])
    ensures InsertAt(d, key, value, k) == Some(Draft(s, levels, value))
  {
    hide FlushTo, Group, KeyByte, Fresh, Terminated;
    assert d.levels[..k + 1][..k] == d.levels[..k];
  }

  /** insert, for a key that it accepts. */
  ghost function InsertInto(d: Draft, key: Key, following: Byte, value: nat): (r: Option<Draft>)
    requires 0 < |d.store.table|
    ensures r.Some? ==> 0 < |r.value.store.table|
  {
    var k := LeavesPath(d.levels, key, following, 0);
    if d.levels == [] then Some(Draft(d.store, Fresh(Terminated(key)), value))
    else if k > |key| || k >= |d.levels| then Some(d)
    else InsertAt(d, key, value, k)
  }

  /** Where the loop of find_node stops. */
  lemma {:induction false} FreezeIs(s: Store, arcs: seq<Arc>, d: nat)
    requires 0 < |s.table| && Expanded(s).Some?
    requires var e := Expanded(s).value; StopsAt(e.table, e.groups, arcs, StateHash(arcs) % |e.table|, d)
    ensures var e := Expanded(s).value; var p := Probe(StateHash(arcs) % |e.table|, d, |e.table|);
      p < |e.table| && FreezeArcs(s, arcs) == FreezeAt(e, arcs, p)
  {
    hide StopsAt, Expanded, FreezeArcs, StateHash, Probe;
    var e := Expanded(s).value;
    var start := StateHash(arcs) % |e.table|;
    ProbeInside(start, d, |e.table|);
    var r := FreezeArcs(s, arcs);
    var x: nat :| FreezesAt(e, arcs, x, r);
    StopsOnce(e.table, e.groups, arcs, start, d, x);
  }

  lemma {:induction false} FoundOrNew(s: Store, arcs: seq<Arc>, p: nat)
    requires p < |s.table|
    ensures s.table[p] != 0 ==> FreezeAt(s, arcs, p) == Froze(s, s.table[p])
  {
  }

  /** What it takes for a round of flush to return: table and loop. */
  lemma {:induction false} FreezeMeans(s: Store, arcs: seq<Arc>)
    requires 0 < |s.table| && FreezeArcs(s, arcs).Froze?
    ensures MustExpand(s) ==> Filled(s.groups, 2 * |s.table|, s.size).Some?
    ensures Expanded(s).Some?
    ensures var e := Expanded(s).value; !Endless(e.table, e.groups, arcs, StateHash(arcs) % |e.table|)
  {
    hide FreezeArcs, StateHash, Filled;
    var e := Expanded(s).value;
    var d: nat :| FreezesAt(e, arcs, d, FreezeArcs(s, arcs));
    assert !MissedAt(e.table, e.groups, arcs, StateHash(arcs) % |e.table|, d);
  }

  lemma {:induction false} FlushStep(s: Store, levels: seq<Level>, target: nat, keep: nat)
    requires 0 < |s.table| && keep < |levels| && FlushTo(s, levels, target, keep).Froze?
    ensures var r := FreezeArcs(s, Group(levels[|levels| - 1], target));
      r.Froze? && FlushTo(r.store, levels[..|levels| - 1], r.id, keep) == FlushTo(s, levels, target, keep)
  {
    hide FreezeArcs;
  }

  lemma {:induction false} FlushDone(s: Store, levels: seq<Level>, target: nat, keep: nat)
    requires 0 < |s.table| && |levels| <= keep
    ensures FlushTo(s, levels, target, keep) == Froze(s, target)
  {
  }

  // When freezing returns.

  ghost predicate StoreFits(s: Store) {
    && |s.table| >= INITIAL_TABLE_SIZE && |s.table| % 4 == 0
    && |s.added| + 1 <= |s.table| - |s.table| / 4
    && Entries(s.table, s.groups) && s.added <= s.groups.Keys
    && (forall g :: g in s.groups ==> 0 < g < s.size) && 0 < s.size
  }

  /** Expanding returns exactly if the doubled table has as many positions as there are states and strays. */
  lemma {:induction false} ExpandReturns(s: Store)
    requires StoreFits(s)
    ensures MustExpand(s) ==> (Expanded(s).Some? <==> |s.groups| <= 2 * |s.table|)
    ensures MustExpand(s) && Expanded(s).Some? ==>
      |Expanded(s).value.table| == 2 * |s.table| && Occupied(Expanded(s).value.table) == |s.groups|
    ensures !MustExpand(s) ==> Expanded(s) == Some(s)
    ensures Expanded(s).Some? ==> StoreFits(Expanded(s).value) && !MustExpand(Expanded(s).value)
  {
    hide Occupied, Filled;
    FilledOk(s.groups, 2 * |s.table|, s.size);
    AllBelow(s.groups, s.size);
  }

  /** A position is empty, or the state is there. */
  ghost predicate HasPlace(s: Store, arcs: seq<Arc>) {
    Occupied(s.table) < |s.table| || !NoEntry(s.table, s.groups, arcs)
  }

  /**
    A round of flush returns exactly if expanding does, and the state is in the table
    or a position in it is empty.
   */
  lemma {:induction false} FreezeReturns(s: Store, arcs: seq<Arc>)
    requires StoreFits(s)
    ensures FreezeArcs(s, arcs).Froze? <==> Expanded(s).Some? && HasPlace(Expanded(s).value, arcs)
    ensures Expanded(s).Some? ==>
      (FreezeArcs(s, arcs).Hangs? <==>
         var e := Expanded(s).value; Endless(e.table, e.groups, arcs, StateHash(arcs) % |e.table|))
  {
    hide Occupied, FreezeArcs, Expanded, StateHash, NoEntry, StoreFits;
    EntriesOf(s);
    ExpandReturns(s);
    if Expanded(s).Some? {
      var e := Expanded(s).value;
      var start := StateHash(arcs) % |e.table|;
      EntriesOf(e);
      StateSearchEnds(e.table, e.groups, arcs, start);
      OccupiedFull(e.table);
      if FreezeArcs(s, arcs).Froze? {
        FreezeMeans(s, arcs);
      }
      if !Endless(e.table, e.groups, arcs, start) {
        var x: nat :| !MissedAt(e.table, e.groups, arcs, start, x);
        var d := StopsSoon(e.table, e.groups, arcs, start, x);
        FreezeIs(s, arcs, d);
      }
    }
  }

  lemma {:induction false} EntriesOf(s: Store)
    requires StoreFits(s)
    ensures Entries(s.table, s.groups) && 0 < |s.table|
  {
  }

  // Counting states, strays and levels.

  /** As many strays as a table of twice the initial size has room for beside its states. */
  const MANY_STRAYS: nat := 513

  /** The number of states at which the initial table is expanded. */
  const FIRST_EXPANSION: nat := 767

  /**
    At most n strays; before the first expansion the table holds none of them.
   */
  ghost predicate Counts(s: Store, levels: seq<Level>, n: nat) {
    && StoreFits(s) && StraysAtMost(s.groups, s.added, levels, n)
    && Occupied(s.table) <= |s.added| + n
    && (Occupied(s.table) == |s.added| ||
        (|s.table| >= 2 * INITIAL_TABLE_SIZE && |s.added| >= FIRST_EXPANSION))
  }

  /** Few strays, or too few states for an expansion. */
  ghost predicate Few(s: Store, levels: seq<Level>, n: nat) {
    n <= MANY_STRAYS || |s.added| + |levels| <= FIRST_EXPANSION
  }

  lemma {:induction false} NewKeys(g: nat, arcs: seq<Arc>)
    requires arcs != []
    ensures g in NewStates(g, arcs) && forall i :: i in NewStates(g, arcs) ==> g <= i < g + |arcs|
  {
    assert StartsAt(g, arcs, g);
  }

  /** The state found or added at a position. */
  lemma {:induction false} FreezeAtOk(s: Store, arcs: seq<Arc>, p: nat)
    requires StoreFits(s) && !MustExpand(s) && arcs != [] && p < |s.table|
    ensures var r := FreezeAt(s, arcs, p);
      && StoreFits(r.store) && |r.store.table| == |s.table|
      && Frozen(s.groups, s.added, arcs, r.id, r.store.groups, r.store.added)
      && (if s.table[p] != 0 then r.store == s
          else |r.store.added| == |s.added| + 1 && Occupied(r.store.table) == Occupied(s.table) + 1)
  {
    hide Occupied, NewStates;
    if s.table[p] == 0 {
      NewKeys(s.size, arcs);
      OccupiedUpdate(s.table, p, s.size);
    }
  }

  lemma {:induction false} FrozenCounts(s: Store, levels: seq<Level>, target: nat, n: nat, p: nat)
    requires Counts(s, levels, n) && !MustExpand(s) && levels != [] && p < |s.table|
    ensures var r := FreezeAt(s, Group(levels[|levels| - 1], target), p);
      Counts(r.store, levels[..|levels| - 1], n) && |r.store.added| <= |s.added| + 1
  {
    hide Occupied, StraysAtMost, FreezeAt, Group, Entries, Frozen, MustExpand;
    var arcs := Group(levels[|levels| - 1], target);
    GroupIs(levels[|levels| - 1], target);
    FreezeAtOk(s, arcs, p);
    var r := FreezeAt(s, arcs, p);
    StraysFreeze(s.groups, s.added, levels, n, target, r.id, r.store.groups, r.store.added);
  }

  /** What one round of flush does to the counts. */
  lemma {:induction false} FreezeCounts(s: Store, levels: seq<Level>, target: nat, n: nat)
    requires Counts(s, levels, n) && Few(s, levels, n) && levels != []
    ensures var r := FreezeArcs(s, Group(levels[|levels| - 1], target)); var upper := levels[..|levels| - 1];
      && r.Froze? && Counts(r.store, upper, n) && Few(r.store, upper, n)
      && |r.store.added| <= |s.added| + 1
  {
    hide Occupied, StraysAtMost, FreezeArcs, Expanded, StateHash, Group, NewStates, NoEntry, Entries;
    var arcs := Group(levels[|levels| - 1], target);
    GroupIs(levels[|levels| - 1], target);
    StrayTotals(s, levels, n);
    ExpandReturns(s);
    FreezeReturns(s, arcs);
    var e := Expanded(s).value;
    assert Counts(e, levels, n) && Occupied(e.table) < |e.table|;
    var r := FreezeArcs(s, arcs);
    var d: nat :| FreezesAt(e, arcs, d, r);
    FrozenCounts(e, levels, target, n, Probe(StateHash(arcs) % |e.table|, d, |e.table|));
  }

  lemma {:induction false} StrayTotals(s: Store, levels: seq<Level>, n: nat)
    requires StraysAtMost(s.groups, s.added, levels, n)
    ensures |s.groups| <= |s.added| + n
  {
    hide OpenStrays;
  }

  lemma {:induction false} FlushCounts(s: Store, levels: seq<Level>, target: nat, keep: nat, n: nat)
    requires Counts(s, levels, n) && Few(s, levels, n) && keep <= |levels|
    ensures var r := FlushTo(s, levels, target, keep);
      && r.Froze? && Counts(r.store, levels[..keep], n)
      && |r.store.added| + keep <= |s.added| + |levels|
    decreases |levels|
  {
    hide Counts, FreezeArcs, Group;
    CountsOk(s, levels, n);
    if |levels| == keep {
      assert levels[..keep] == levels;
    } else {
      FreezeCounts(s, levels, target, n);
      var r := FreezeArcs(s, Group(levels[|levels| - 1], target));
      FlushCounts(r.store, levels[..|levels| - 1], r.id, keep, n);
      assert levels[..|levels| - 1][..keep] == levels[..keep];
    }
  }

  lemma {:induction false} CountsOk(s: Store, levels: seq<Level>, n: nat)
    requires Counts(s, levels, n)
    ensures StoreFits(s) && 0 < |s.table|
  {
  }

  /** An inserted key brings at most one more stray, and at most one more state for each byte and its terminator. */
  lemma {:induction false} InsertCounts(d: Draft, key: Key, value: nat, k: nat, n: nat)
    requires Counts(d.store, d.levels, n) && Few(d.store, d.levels, n) && k < |d.levels| && k <= |key|
    ensures var r := InsertAt(d, key, value, k);
      && r.Some?
      && Counts(r.value.store, r.value.levels, n + if KeyByte(key, k) == 0 then 1 else 0)
      && |r.value.levels| == |key| + 1
      && |r.value.store.added| + |r.value.levels| <= |d.store.added| + |d.levels| + (|key| - k)
  {
    hide FlushTo, Group, Fresh, StraysAtMost, StoreFits, Occupied, KeyByte;
    CountsOk(d.store, d.levels, n);
    FlushCounts(d.store, d.levels, d.target, k + 1, n);
    var f := FlushTo(d.store, d.levels, d.target, k + 1);
    var c := KeyByte(key, k);
    var lower := d.levels[..k + 1];
    assert lower[..k] == d.levels[..k] && lower[k] == d.levels[k];
    StraysNext(f.store.groups, f.store.added, lower, n, f.id, c);
    var branched := d.levels[..k] + [Level(Group(d.levels[k], f.id), c)];
    FreshAfter(f.store.groups, f.store.added, branched, n + if c == 0 then 1 else 0, Terminated(key)[k + 1..]);
  }

  lemma {:induction false} FreshAfter(groups: map<nat, seq<Arc>>, added: set<nat>, levels: seq<Level>, n: nat,
                                      bytes: Key)
    requires StraysAtMost(groups, added, levels, n)
    ensures StraysAtMost(groups, added, levels + Fresh(bytes), n)
  {
    StraysFresh(levels, bytes);
  }
}
