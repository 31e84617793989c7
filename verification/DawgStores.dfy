/**
  The hash table of the states that a word graph has so far.

  When the table is expanded, strays get in as well: units inside a state that look
  like the first one of a state, because they are labelled 0. They come from keys
  that were given again in front of a byte that is not zero.
 */
module DawgStores {
  import opened Dictionary
  import opened Keysets
  import opened DawgLevels
  import opened DawgGraphs
  import opened DawgTables

  const INITIAL_TABLE_SIZE: nat := 1024

  ghost function HashOf(groups: map<nat, seq<Arc>>): map<nat, nat> {
    map g | g in groups :: StateHash(groups[g])
  }

  /** Every added state is stored, perhaps with strays; the states counted are at most three quarters of the size. */
  ghost predicate TableReady(table: seq<nat>, groups: map<nat, seq<Arc>>, added: set<nat>, stored: set<nat>,
                             numStates: nat) {
    && TableOk(table, stored, HashOf(groups))
    && Occupied(table) == |stored|
    && added <= stored <= groups.Keys
    && numStates == |added| + 1
    && |table| >= INITIAL_TABLE_SIZE
    && numStates <= |table| - |table| / 4
  }

  ghost function LevelStrays(l: Level): nat {
    Strays(Group(l, 0))
  }

  ghost function OpenStrays(levels: seq<Level>): nat {
    if levels == [] then 0 else OpenStrays(levels[..|levels| - 1]) + LevelStrays(levels[|levels| - 1])
  }

  ghost predicate LevelStrict(l: Level) {
    ArcsStrict(Group(l, 0))
  }

  /** There are at most n strays, in frozen states and in those still open. */
  ghost predicate StraysAtMost(groups: map<nat, seq<Arc>>, added: set<nat>, levels: seq<Level>, n: nat) {
    |groups| + OpenStrays(levels) <= |added| + n
  }

  /** Strays come from keys that were given again: without any every state is strict. */
  ghost predicate RepeatsOk(groups: map<nat, seq<Arc>>, added: set<nat>, levels: seq<Level>, repeats: nat) {
    repeats == 0 ==>
      AllStrict(groups) && groups.Keys == added && forall i :: 0 <= i < |levels| ==> LevelStrict(levels[i])
  }

  function EmptySlots(n: nat): (table: seq<nat>)
    ensures |table| == n && forall p :: 0 <= p < n ==> table[p] == 0
  {
    seq(n, _ => 0)
  }

  lemma {:induction false} InitialTable()
    ensures TableReady(EmptySlots(INITIAL_TABLE_SIZE), map[], {}, {}, 1) && RepeatsOk(map[], {}, [], 0)
  {
    OccupiedEmpty(EmptySlots(INITIAL_TABLE_SIZE));
  }

  // Probing.

  /** Probing for hash h first meets an empty position after d steps, at p. */
  ghost predicate EmptyAt(table: seq<nat>, h: nat, d: nat, p: nat) {
    && 0 < |table|
    && FoundAt(table, h % |table|, 0, d)
    && p == Probe(h % |table|, d, |table|) < |table|
  }

  ghost predicate TakenAt(table: seq<nat>, start: nat, i: nat) {
    Probe(start, i, |table|) < |table| && table[Probe(start, i, |table|)] != 0
  }

  ghost predicate MissedAt(table: seq<nat>, groups: map<nat, seq<Arc>>, arcs: seq<Arc>, start: nat, i: nat) {
    && TakenAt(table, start, i)
    && var g := table[Probe(start, i, |table|)]; g in groups && groups[g] != arcs
  }

  lemma {:induction false} ProbeStart(start: nat, n: nat)
    ensures Probe(start, 0, n) == start
  {
  }

  lemma {:induction false} ProbeStep(start: nat, d: nat, n: nat)
    requires Probe(start, d, n) < n
    ensures (Probe(start, d, n) + 1) % n == Probe(start, d + 1, n) < n
  {
    NextIsModulo(Probe(start, d, n), n);
  }

  lemma {:induction false} TableMembers(table: seq<nat>, groups: map<nat, seq<Arc>>, stored: set<nat>)
    requires TableOk(table, stored, HashOf(groups)) && stored <= groups.Keys
    ensures 0 < |table| && forall p :: 0 <= p < |table| ==> table[p] == 0 || table[p] in stored
  {
  }

  lemma {:induction false} FirstEmpty(table: seq<nat>, start: nat, d: nat)
    requires start < |table| && Probe(start, d, |table|) < |table| && table[Probe(start, d, |table|)] == 0
    requires forall i: nat :: i < d ==> TakenAt(table, start, i)
    ensures FoundAt(table, start, 0, d)
  {
    hide Probe;
    forall i | 0 <= i < d
      ensures Probe(start, i, |table|) < |table| && table[Probe(start, i, |table|)] != 0
    {
      assert TakenAt(table, start, i);
    }
  }

  lemma {:induction false} EmptyFound(table: seq<nat>, groups: map<nat, seq<Arc>>, arcs: seq<Arc>, start: nat, d: nat)
    requires start < |table| && Probe(start, d, |table|) < |table| && table[Probe(start, d, |table|)] == 0
    requires forall i: nat :: i < d ==> MissedAt(table, groups, arcs, start, i)
    ensures FoundAt(table, start, 0, d)
  {
    hide Probe, FoundAt;
    forall i: nat | i < d
      ensures TakenAt(table, start, i)
    {
      assert MissedAt(table, groups, arcs, start, i);
    }
    FirstEmpty(table, start, d);
  }

  /** A stored state with these arcs would have been met before the empty position. */
  lemma {:induction false} NoneMatches(table: seq<nat>, groups: map<nat, seq<Arc>>, stored: set<nat>,
                                       arcs: seq<Arc>, h: nat, d: nat)
    requires TableOk(table, stored, HashOf(groups)) && stored <= groups.Keys && h == StateHash(arcs)
    requires FoundAt(table, h % |table|, 0, d)
    requires forall i: nat :: i < d ==> MissedAt(table, groups, arcs, h % |table|, i)
    ensures forall g :: g in stored ==> groups[g] != arcs
  {
    hide Probe, FoundAt, TableOk, StateHash;
    forall g | g in stored
      ensures groups[g] != arcs
    {
      if groups[g] == arcs {
        TableMembers(table, groups, stored);
        var i := MetBeforeEmpty(table, stored, HashOf(groups), g, d);
        MissedIs(table, groups, arcs, h % |table|, i);
      }
    }
  }

  lemma {:induction false} MissedIs(table: seq<nat>, groups: map<nat, seq<Arc>>, arcs: seq<Arc>, start: nat, i: nat)
    requires MissedAt(table, groups, arcs, start, i)
    ensures var p := Probe(start, i, |table|); p < |table| && table[p] in groups && groups[table[p]] != arcs
  {
  }

  // Whether probing ends.

  /** find_node goes past the first d positions and stops at the next one. */
  ghost predicate StopsAt(table: seq<nat>, groups: map<nat, seq<Arc>>, arcs: seq<Arc>, start: nat, d: nat) {
    (forall i: nat :: i < d ==> MissedAt(table, groups, arcs, start, i)) && !MissedAt(table, groups, arcs, start, d)
  }

  /** find_node never stops. */
  ghost predicate Endless(table: seq<nat>, groups: map<nat, seq<Arc>>, arcs: seq<Arc>, start: nat) {
    forall i: nat :: MissedAt(table, groups, arcs, start, i)
  }

  /** find_unit goes past the first d positions and stops at the next one. */
  ghost predicate FreeAt(table: seq<nat>, start: nat, d: nat) {
    (forall i: nat :: i < d ==> TakenAt(table, start, i)) && !TakenAt(table, start, d)
  }

  /** find_unit never stops. */
  ghost predicate AllTaken(table: seq<nat>, start: nat) {
    forall i: nat :: TakenAt(table, start, i)
  }

  lemma {:induction false} StopsSoon(table: seq<nat>, groups: map<nat, seq<Arc>>, arcs: seq<Arc>, start: nat, e: nat)
    returns (d: nat)
    requires !MissedAt(table, groups, arcs, start, e)
    ensures d <= e && StopsAt(table, groups, arcs, start, d)
    decreases e
  {
    hide MissedAt;
    if i: nat :| i < e && !MissedAt(table, groups, arcs, start, i) {
      d := StopsSoon(table, groups, arcs, start, i);
    } else {
      d := e;
    }
  }

  lemma {:induction false} StopsOnce(table: seq<nat>, groups: map<nat, seq<Arc>>, arcs: seq<Arc>, start: nat, d: nat,
                                     e: nat)
    requires StopsAt(table, groups, arcs, start, d) && StopsAt(table, groups, arcs, start, e)
    ensures d == e
  {
    hide MissedAt;
  }

  lemma {:induction false} FreeSoon(table: seq<nat>, start: nat, e: nat) returns (d: nat)
    requires !TakenAt(table, start, e)
    ensures d <= e && FreeAt(table, start, d)
    decreases e
  {
    hide TakenAt;
    if i: nat :| i < e && !TakenAt(table, start, i) {
      d := FreeSoon(table, start, i);
    } else {
      d := e;
    }
  }

  lemma {:induction false} FreeOnce(table: seq<nat>, start: nat, d: nat, e: nat)
    requires FreeAt(table, start, d) && FreeAt(table, start, e)
    ensures d == e
  {
    hide TakenAt;
  }

  lemma {:induction false} OccupiedFull(table: seq<nat>)
    ensures Occupied(table) <= |table|
    ensures Occupied(table) == |table| <==> forall p :: 0 <= p < |table| ==> table[p] != 0
    decreases |table|
  {
    if table != [] {
      var n := |table| - 1;
      OccupiedFull(table[..n]);
      assert forall p :: 0 <= p < n ==> table[..n][p] == table[p];
    }
  }

  lemma {:induction false} EmptyIsFree(table: seq<nat>, h: nat, d: nat, p: nat)
    requires EmptyAt(table, h, d, p)
    ensures FreeAt(table, h % |table|, d) && table[p] == 0
  {
    hide Probe;
  }

  /** The search for a place in a doubled table ends exactly if a position is empty. */
  lemma {:induction false} PlaceSearchEnds(table: seq<nat>, start: nat)
    requires start < |table|
    ensures AllTaken(table, start) <==> Occupied(table) == |table|
  {
    hide Probe, Occupied;
    var n := |table|;
    OccupiedFull(table);
    if AllTaken(table, start) {
      forall p | 0 <= p < n
        ensures table[p] != 0
      {
        var d := ProbeReaches(start, p, n);
        assert TakenAt(table, start, d);
      }
    }
    if Occupied(table) == n {
      forall i: nat
        ensures TakenAt(table, start, i)
      {
        ProbeInside(start, i, n);
      }
    }
  }

  /** What is stored are states. */
  ghost predicate Entries(table: seq<nat>, groups: map<nat, seq<Arc>>) {
    forall p :: 0 <= p < |table| ==> table[p] == 0 || table[p] in groups
  }

  ghost predicate NoEntry(table: seq<nat>, groups: map<nat, seq<Arc>>, arcs: seq<Arc>) {
    forall p :: 0 <= p < |table| && table[p] in groups ==> groups[table[p]] != arcs
  }

  /** The search for a state ends exactly if a position is empty or the state is there. */
  lemma {:induction false} StateSearchEnds(table: seq<nat>, groups: map<nat, seq<Arc>>, arcs: seq<Arc>, start: nat)
    requires start < |table| && Entries(table, groups)
    ensures Endless(table, groups, arcs, start) <==> Occupied(table) == |table| && NoEntry(table, groups, arcs)
  {
    hide Probe, Occupied;
    var n := |table|;
    OccupiedFull(table);
    if Endless(table, groups, arcs, start) {
      forall p | 0 <= p < n
        ensures table[p] != 0 && table[p] in groups && groups[table[p]] != arcs
      {
        var d := ProbeReaches(start, p, n);
        assert MissedAt(table, groups, arcs, start, d);
      }
    }
    if Occupied(table) == n && NoEntry(table, groups, arcs) {
      forall i: nat
        ensures MissedAt(table, groups, arcs, start, i)
      {
        ProbeInside(start, i, n);
      }
    }
  }

  // Filling a larger table.

  ghost predicate PutsAt(table: seq<nat>, start: nat, g: nat, d: nat, table': seq<nat>) {
    && FreeAt(table, start, d)
    && Probe(start, d, |table|) < |table| && table' == table[Probe(start, d, |table|) := g]
  }

  /** The table with unit g at the first empty position for hash h, if there is one. */
  ghost function PutUnit(table: seq<nat>, h: nat, g: nat): (r: Option<seq<nat>>)
    requires 0 < |table|
    ensures r.Some? ==> |r.value| == |table| && exists d: nat :: PutsAt(table, h % |table|, g, d, r.value)
    ensures r.None? ==> forall d: nat :: !FreeAt(table, h % |table|, d)
  {
    var start := h % |table|;
    if exists d: nat :: FreeAt(table, start, d) then
      var d: nat :| FreeAt(table, start, d);
      ProbeInside(start, d, |table|);
      var r := table[Probe(start, d, |table|) := g];
      assert PutsAt(table, start, g, d, r);
      Some(r)
    else None
  }

  /** A table of the units before i that look like states, if there is a place for all of them. */
  ghost function Filled(groups: map<nat, seq<Arc>>, slots: nat, i: nat): (r: Option<seq<nat>>)
    requires 0 < slots
    ensures r.Some? ==> |r.value| == slots
  {
    if i <= 1 then Some(EmptySlots(slots))
    else
      var before := Filled(groups, slots, i - 1);
      if before.None? || i - 1 !in groups then before
      else PutUnit(before.value, StateHash(groups[i - 1]), i - 1)
  }

  lemma {:induction false} PutAt(table: seq<nat>, h: nat, g: nat, d: nat)
    requires 0 < |table| && FreeAt(table, h % |table|, d)
    ensures Probe(h % |table|, d, |table|) < |table|
    ensures PutUnit(table, h, g) == Some(table[Probe(h % |table|, d, |table|) := g])
  {
    hide FreeAt, PutUnit;
    var start := h % |table|;
    ProbeInside(start, d, |table|);
    var r := PutUnit(table, h, g);
    var e: nat :| PutsAt(table, start, g, e, r.value);
    FreeOnce(table, start, d, e);
  }

  lemma {:induction false} PutOk(table: seq<nat>, h: nat, g: nat)
    requires 0 < |table| && g != 0
    ensures PutUnit(table, h, g).Some? <==> Occupied(table) < |table|
    ensures var r := PutUnit(table, h, g); r.Some? ==> Occupied(r.value) == Occupied(table) + 1
    ensures var r := PutUnit(table, h, g);
      r.Some? ==> forall p :: 0 <= p < |table| ==> r.value[p] == table[p] || r.value[p] == g
  {
    hide Occupied, Probe, PutUnit;
    var start := h % |table|;
    PlaceSearchEnds(table, start);
    OccupiedFull(table);
    if Occupied(table) < |table| {
      var e: nat :| !TakenAt(table, start, e);
      var d := FreeSoon(table, start, e);
      PutAt(table, h, g, d);
      OccupiedUpdate(table, Probe(start, d, |table|), g);
    } else {
      assert forall d: nat :: !FreeAt(table, start, d);
    }
  }

  /** All units that look like states get a place exactly if there are not more of them than positions. */
  lemma {:induction false} FilledOk(groups: map<nat, seq<Arc>>, slots: nat, i: nat)
    requires 0 < slots && forall g :: g in groups ==> 0 < g
    ensures Filled(groups, slots, i).Some? <==> |StatesBelow(groups, i)| <= slots
    ensures var r := Filled(groups, slots, i);
      r.Some? ==> Occupied(r.value) == |StatesBelow(groups, i)| && Entries(r.value, groups)
    decreases i
  {
    hide Occupied, PutUnit, StateHash, StatesBelow;
    if i <= 1 {
      OccupiedEmpty(EmptySlots(slots));
      NoneBelow(groups, i);
    } else {
      FilledOk(groups, slots, i - 1);
      BelowNext(groups, i - 1);
      var before := Filled(groups, slots, i - 1);
      if before.Some? && i - 1 in groups {
        PutOk(before.value, StateHash(groups[i - 1]), i - 1);
      }
    }
  }

  lemma {:induction false} FilledBefore(groups: map<nat, seq<Arc>>, slots: nat, i: nat, n: nat)
    requires 0 < slots && i <= n && Filled(groups, slots, n).Some?
    ensures Filled(groups, slots, i).Some?
    decreases n
  {
    hide PutUnit, StateHash;
    if 1 < n && i < n {
      FilledBefore(groups, slots, i, n - 1);
    }
  }

  /** The next unit to be put into the table has a place. */
  lemma {:induction false} FilledNext(groups: map<nat, seq<Arc>>, slots: nat, i: nat, table: seq<nat>)
    requires 0 < slots && 0 < i && Filled(groups, slots, i) == Some(table) && Filled(groups, slots, i + 1).Some?
    ensures i !in groups ==> Filled(groups, slots, i + 1) == Some(table)
    ensures i in groups ==> Filled(groups, slots, i + 1) == PutUnit(table, StateHash(groups[i]), i)
    ensures i in groups ==> !AllTaken(table, StateHash(groups[i]) % slots)
  {
    hide StateHash, Probe, TakenAt;
    if i in groups {
      var start := StateHash(groups[i]) % slots;
      var d: nat :| PutsAt(table, start, i, d, Filled(groups, slots, i + 1).value);
      assert !TakenAt(table, start, d);
    }
  }

  lemma {:induction false} NothingFilled(groups: map<nat, seq<Arc>>, slots: nat)
    requires 0 < slots
    ensures Filled(groups, slots, 1) == Some(EmptySlots(slots))
  {
  }

  lemma {:induction false} PutEmpty(table: seq<nat>, h: nat, g: nat, d: nat, p: nat)
    requires EmptyAt(table, h, d, p)
    ensures PutUnit(table, h, g) == Some(table[p := g])
  {
    EmptyIsFree(table, h, d, p);
    PutAt(table, h, g, d);
  }

  lemma {:induction false} NoneBelow(groups: map<nat, seq<Arc>>, i: nat)
    requires i <= 1 && forall g :: g in groups ==> 0 < g
    ensures StatesBelow(groups, i) == {}
  {
  }

  ghost function StatesBelow(groups: map<nat, seq<Arc>>, i: nat): set<nat> {
    set g | g in groups && g < i
  }

  lemma {:induction false} EmptyTable(table: seq<nat>, groups: map<nat, seq<Arc>>)
    requires 0 < |table| && forall p :: 0 <= p < |table| ==> table[p] == 0
    ensures (forall g :: g in groups ==> 0 < g) ==> StatesBelow(groups, 1) == {}
    ensures TableOk(table, {}, HashOf(groups)) && Occupied(table) == 0
  {
    OccupiedEmpty(table);
  }

  lemma {:induction false} BelowNext(groups: map<nat, seq<Arc>>, i: nat)
    ensures StatesBelow(groups, i + 1) == StatesBelow(groups, i) + (if i in groups then {i} else {})
    ensures |StatesBelow(groups, i + 1)| == |StatesBelow(groups, i)| + (if i in groups then 1 else 0)
  {
    var below := StatesBelow(groups, i);
    assert i !in below;
    assert StatesBelow(groups, i + 1) == below + (if i in groups then {i} else {});
  }

  lemma {:induction false} AllBelow(groups: map<nat, seq<Arc>>, n: nat)
    requires forall g :: g in groups ==> g < n
    ensures StatesBelow(groups, n) == groups.Keys && |groups.Keys| == |groups|
  {
  }

  lemma {:induction false} IsHead(units: seq<nat>, labels: seq<Byte>, groups: map<nat, seq<Arc>>,
                                  lang: map<nat, Dict>, i: nat)
    requires Graph(units, labels, groups, lang) && 0 < i < |units|
    ensures |units| == |labels|
    ensures i in groups <==> labels[i] == 0 || UnitIsState(units[i])
  {
    hide StateOk, UnitIsState;
    assert HeadUnitOk(units, labels, groups, i);
  }

  /** Storing a state at the first empty position for its hash. */
  lemma {:induction false} StoreState(table: seq<nat>, groups: map<nat, seq<Arc>>, keys: set<nat>, g: nat, d: nat,
                                      p: nat)
    requires TableOk(table, keys, HashOf(groups)) && g in groups && g != 0
    requires EmptyAt(table, StateHash(groups[g]), d, p)
    ensures p < |table|
    ensures TableOk(table[p := g], keys + {g}, HashOf(groups))
    ensures Occupied(table[p := g]) == Occupied(table) + 1
  {
    hide TableOk, StateHash, Probe, Occupied;
    StoreOk(table, keys, HashOf(groups), g, d);
    EmptyPosition(table, StateHash(groups[g]) % |table|, d);
    OccupiedUpdate(table, p, g);
  }

  lemma {:induction false} EmptyPosition(table: seq<nat>, start: nat, d: nat)
    requires start < |table| && FoundAt(table, start, 0, d)
    ensures Probe(start, d, |table|) < |table| && table[Probe(start, d, |table|)] == 0
  {
  }

  lemma {:induction false} HashGrows(table: seq<nat>, stored: set<nat>, groups: map<nat, seq<Arc>>,
                                     groups': map<nat, seq<Arc>>)
    requires TableOk(table, stored, HashOf(groups)) && Grows(groups, groups')
    ensures TableOk(table, stored, HashOf(groups'))
  {
    hide StateHash, Findable;
    forall g | g in stored
      ensures KeyOk(table, HashOf(groups'), g)
    {
      assert KeyOk(table, HashOf(groups), g);
    }
  }

  /** A table of twice the size, with all that looks like a state. */
  lemma {:induction false} ExpandedTable(table: seq<nat>, groups: map<nat, seq<Arc>>, added: set<nat>,
                                         stored: set<nat>, numStates: nat, table': seq<nat>)
    requires TableReady(table, groups, added, stored, numStates)
    requires |table'| == 2 * |table| && TableOk(table', groups.Keys, HashOf(groups)) && Occupied(table') == |groups.Keys|
    ensures TableReady(table', groups, added, groups.Keys, numStates)
  {
    hide TableOk, Occupied, StateHash;
  }

  lemma {:induction false} StoreNew(table: seq<nat>, groups: map<nat, seq<Arc>>, added: set<nat>, stored: set<nat>,
                                    numStates: nat, arcs: seq<Arc>, groups': map<nat, seq<Arc>>, g: nat, d: nat, p: nat)
    requires TableReady(table, groups, added, stored, numStates) && numStates < |table| - |table| / 4
    requires EmptyAt(table, StateHash(arcs), d, p) && g !in groups && g != 0
    requires Grows(groups, groups') && g in groups' && groups'[g] == arcs
    ensures p < |table|
    ensures TableReady(table[p := g], groups', added + {g}, stored + {g}, numStates + 1)
  {
    hide EmptyAt, StateHash, Occupied, TableOk;
    HashGrows(table, stored, groups, groups');
    StoreState(table, groups', stored, g, d, p);
  }

  lemma {:induction false} NewIsMinimal(groups: map<nat, seq<Arc>>, added: set<nat>, stored: set<nat>,
                                        arcs: seq<Arc>, groups': map<nat, seq<Arc>>, g: nat)
    requires Minimal(groups, added) && added <= stored <= groups.Keys && forall x :: x in stored ==> groups[x] != arcs
    requires Grows(groups, groups') && g in groups' && groups'[g] == arcs
    ensures Minimal(groups', added + {g})
  {
  }

  lemma {:induction false} TableFacts(table: seq<nat>, groups: map<nat, seq<Arc>>, added: set<nat>, stored: set<nat>,
                                      numStates: nat)
    requires TableReady(table, groups, added, stored, numStates)
    ensures TableOk(table, stored, HashOf(groups)) && |table| > 0 && added <= stored <= groups.Keys
  {
    hide TableOk, Occupied, StateHash;
  }

  lemma {:induction false} AddedStates(table: seq<nat>, groups: map<nat, seq<Arc>>, added: set<nat>,
                                       stored: set<nat>, numStates: nat)
    requires TableReady(table, groups, added, stored, numStates)
    ensures added <= groups.Keys && numStates == |added| + 1 <= |table| - |table| / 4 && 0 < |table|
  {
    hide TableOk, Occupied;
  }

  // Shared states.

  /** The marks after n blank units have been added. */
  ghost function Unmarked(bits: seq<bool>, n: nat): seq<bool> {
    if n == 0 then bits else Unmarked(bits, n - 1) + [false]
  }

  /** A state that was found is marked; a new one and the units of its arcs are not. */
  ghost predicate Marked(bits: seq<bool>, arcs: seq<Arc>, g: nat, found: bool, bits': seq<bool>) {
    if found then g < |bits| && bits' == bits[g := true] else g == |bits| && bits' == Unmarked(bits, |arcs|)
  }

  // Strays.

  /** A state with these arcs is there: it was before, or it is new at g. */
  ghost predicate Frozen(groups: map<nat, seq<Arc>>, added: set<nat>, arcs: seq<Arc>, g: nat,
                         groups': map<nat, seq<Arc>>, added': set<nat>)
  {
    || (g in groups && groups' == groups && added' == added)
    || (&& groups' == groups + NewStates(g, arcs) && added' == added + {g}
        && g !in groups && forall i :: i in NewStates(g, arcs) ==> i !in groups)
  }

  lemma {:induction false} StraysTarget(l: Level, target: nat)
    ensures Strays(Group(l, target)) == LevelStrays(l)
  {
    assert Group(l, target)[..|l.closed|] == l.closed == Group(l, 0)[..|l.closed|];
  }

  lemma {:induction false} MergeSize(a: map<nat, seq<Arc>>, b: map<nat, seq<Arc>>)
    requires forall i :: i in b ==> i !in a
    ensures |a + b| == |a| + |b|
  {
    assert (a + b).Keys == a.Keys + b.Keys;
    assert |(a + b).Keys| == |a.Keys| + |b.Keys|;
  }

  /** A frozen level leaves behind at most as many strays as it had. */
  lemma {:induction false} StraysFreeze(groups: map<nat, seq<Arc>>, added: set<nat>, levels: seq<Level>, n: nat,
                                        target: nat, g: nat, groups': map<nat, seq<Arc>>, added': set<nat>)
    requires StraysAtMost(groups, added, levels, n) && levels != [] && added <= groups.Keys
    requires Frozen(groups, added, Group(levels[|levels| - 1], target), g, groups', added')
    ensures StraysAtMost(groups', added', levels[..|levels| - 1], n) && |added'| <= |added| + 1
  {
    hide Strays, NewStates, Group;
    var l := levels[|levels| - 1];
    var arcs := Group(l, target);
    GroupIs(l, target);
    assert OpenStrays(levels) == OpenStrays(levels[..|levels| - 1]) + LevelStrays(l);
    hide OpenStrays, LevelStrays;
    if groups' != groups || added' != added {
      StraysTarget(l, target);
      NewIdsAre(g, arcs);
      NewIdsSize(g, arcs);
      MergeSize(groups, NewStates(g, arcs));
      assert added' == added + {g} && g !in added;
    }
  }

  /** A frozen level is as strict as it was before. */
  lemma {:induction false} RepeatsFreeze(groups: map<nat, seq<Arc>>, added: set<nat>, levels: seq<Level>, repeats: nat,
                                         target: nat, g: nat, groups': map<nat, seq<Arc>>, added': set<nat>)
    requires RepeatsOk(groups, added, levels, repeats) && levels != []
    requires Frozen(groups, added, Group(levels[|levels| - 1], target), g, groups', added')
    ensures RepeatsOk(groups', added', levels[..|levels| - 1], repeats)
  {
    hide NewStates, Group, ArcsStrict, AllStrict, LevelStrict;
    var l := levels[|levels| - 1];
    var arcs := Group(l, target);
    GroupIs(l, target);
    if repeats == 0 && (groups' != groups || added' != added) {
      StrictLevel(l, target);
      StrictState(g, arcs);
      StrictAdded(groups, arcs, g, groups');
    }
  }

  lemma {:induction false} StrictAdded(groups: map<nat, seq<Arc>>, arcs: seq<Arc>, g: nat, groups': map<nat, seq<Arc>>)
    requires AllStrict(groups) && ArcsStrict(arcs) && groups' == groups + map[g := arcs]
    ensures AllStrict(groups') && groups'.Keys == groups.Keys + {g}
  {
    hide ArcsStrict;
  }

  lemma {:induction false} StrictLevel(l: Level, target: nat)
    requires LevelStrict(l)
    ensures ArcsStrict(Group(l, target))
  {
    assert forall i :: 0 <= i < |Group(l, 0)| ==> Group(l, target)[i].c == Group(l, 0)[i].c;
  }

  lemma {:induction false} StrictState(g: nat, arcs: seq<Arc>)
    requires ArcsStrict(arcs) && arcs != []
    ensures NewStates(g, arcs) == map[g := arcs]
  {
    forall i: nat | g <= i < g + |arcs| && StartsAt(g, arcs, i)
      ensures i == g
    {
      FirstArc(arcs, i - g);
    }
    assert StartsAt(g, arcs, g);
    hide StartsAt;
    assert arcs[0..] == arcs;
  }

  lemma {:induction false} OpenStraysAppend(levels: seq<Level>, l: Level)
    ensures OpenStrays(levels + [l]) == OpenStrays(levels) + LevelStrays(l)
  {
    assert (levels + [l])[..|levels|] == levels;
  }

  /** Fresh levels have no strays. */
  lemma {:induction false} StraysFresh(levels: seq<Level>, bytes: Key)
    ensures OpenStrays(levels + Fresh(bytes)) == OpenStrays(levels)
    decreases |bytes|
  {
    if bytes == [] {
      assert levels + Fresh(bytes) == levels;
    } else {
      var n := |bytes| - 1;
      StraysFresh(levels, bytes[..n]);
      assert levels + Fresh(bytes) == levels + Fresh(bytes[..n]) + [Level([], bytes[n])];
      OpenStraysAppend(levels + Fresh(bytes[..n]), Level([], bytes[n]));
    }
  }

  lemma {:induction false} RepeatsFresh(groups: map<nat, seq<Arc>>, added: set<nat>, levels: seq<Level>, repeats: nat,
                                        c: Byte)
    requires RepeatsOk(groups, added, levels, repeats)
    ensures RepeatsOk(groups, added, levels + [Level([], c)], repeats)
  {
  }

  /** A level with one more open arc has a stray more if the label is 0. */
  lemma {:induction false} StraysNext(groups: map<nat, seq<Arc>>, added: set<nat>, levels: seq<Level>, n: nat,
                                      target: nat, c: Byte)
    requires StraysAtMost(groups, added, levels, n) && levels != []
    ensures StraysAtMost(groups, added, levels[..|levels| - 1] + [Level(Group(levels[|levels| - 1], target), c)],
                         n + if c == 0 then 1 else 0)
  {
    hide Strays, Group;
    var l := levels[|levels| - 1];
    OpenStraysAppend(levels[..|levels| - 1], Level(Group(l, target), c));
    StraysTarget(l, target);
    StraysMore(l, target, c);
  }

  lemma {:induction false} RepeatsNext(groups: map<nat, seq<Arc>>, added: set<nat>, levels: seq<Level>, repeats: nat,
                                       target: nat, c: Byte)
    requires RepeatsOk(groups, added, levels, repeats) && levels != []
    requires levels[|levels| - 1].label_ < c || c == 0
    ensures RepeatsOk(groups, added, levels[..|levels| - 1] + [Level(Group(levels[|levels| - 1], target), c)],
                      repeats + if c == 0 then 1 else 0)
  {
    hide AllStrict, LevelStrict, Group;
    if repeats == 0 && c != 0 {
      StrictMore(levels[|levels| - 1], target, c);
    }
  }

  lemma {:induction false} StraysMore(l: Level, target: nat, c: Byte)
    ensures LevelStrays(Level(Group(l, target), c)) == Strays(Group(l, target)) + if c == 0 then 1 else 0
  {
    var next := Level(Group(l, target), c);
    assert Group(next, 0)[..|Group(next, 0)| - 1] == Group(l, target);
  }

  lemma {:induction false} StrictMore(l: Level, target: nat, c: Byte)
    requires LevelStrict(l) && l.label_ < c
    ensures LevelStrict(Level(Group(l, target), c))
  {
    StrictLevel(l, target);
    var arcs, more := Group(l, target), Group(Level(Group(l, target), c), 0);
    forall i, j | 0 <= i < j < |more|
      ensures more[i].c < more[j].c
    {
      if j == |arcs| {
        assert i < |arcs| - 1 ==> arcs[i].c < arcs[|arcs| - 1].c;
      } else {
        assert arcs[i].c < arcs[j].c;
      }
    }
  }
}
