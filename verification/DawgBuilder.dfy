/**
  The incremental builder of a minimal word graph from sorted keys.
 */
module DawgBuilders {
  import opened Bitwise
  import opened BitVectors
  import opened Dictionary
  import opened Keysets
  import opened KeysetRanges
  import opened DawgLevels
  import opened DawgGraphs
  import opened DawgPaths
  import opened DawgTables
  import opened DawgStores
  import opened DawgWalks
  import opened DawgSharing
  import opened DawgRuns

  /** Closed arcs are ready to be frozen, and only the end of the path may be labelled 0. */
  ghost predicate LevelsReady(levels: seq<Level>, lang: map<nat, Dict>, size: nat) {
    && LevelsOk(levels, lang)
    && (forall i :: 0 <= i < |levels| ==> ClosedReady(levels[i], lang, size))
    && (forall i :: 0 <= i < |levels| - 1 ==> levels[i].label_ != 0)
  }

  ghost predicate ClosedReady(l: Level, lang: map<nat, Dict>, size: nat) {
    forall j :: 0 <= j < |l.closed| ==> ArcOk(l.closed[j], lang, size)
  }

  /** A key without zero bytes for which a place is found in order. */
  ghost predicate Insertable(levels: seq<Level>, key: Key, following: Byte) {
    NulFreeKey(key) && !Misplaced(levels, key, following)
  }

  class DawgBuilder {
    var nodes: seq<DawgNode>
    var units: seq<nat>
    var labels: seq<Byte>
    const isIntersections: BitVector
    var table: seq<nat>
    var nodeStack: seq<nat>
    var recycleBin: seq<nat>
    var numStates: nat

    // Frozen states, their arcs and their meaning; those that were added as states,
    // those in the table, and how often a key was given a second terminator.
    ghost var groups: map<nat, seq<Arc>>
    ghost var lang: map<nat, Dict>
    ghost var added: set<nat>
    ghost var stored: set<nat>
    ghost var repeats: nat
    // The strings whose states were frozen.
    ghost var seen: map<Key, nat>
    // The path of the last key, and where its nodes are.
    ghost var levels: seq<Level>
    ghost var target: nat
    ghost var chains: seq<seq<nat>>
    ghost var place: map<nat, (nat, nat)>

    /** The strings that were frozen are those of the keys d that the path has left behind. */
    ghost predicate SeenFor(path: Key, d: Dict)
      reads this`seen, this`lang, this`added, isIntersections`bits
    {
      SeenOk(seen, path, d, lang, added, isIntersections.bits)
    }

    ghost predicate Consistent(marked: nat)
      reads this, isIntersections
    {
      Core(marked) && nodeStack == Stack(chains)
    }

    /** All but the stack. */
    ghost predicate Core(marked: nat)
      reads this, isIntersections
    {
      && Physical(nodes, chains, levels, target, recycleBin, place, marked)
      && StatesOk()
      && RepeatsOk(groups, added, levels, repeats)
      && LevelsReady(levels, lang, |units|)
    }

    /** The frozen states, each with a place for its mark, and the table of them. */
    ghost predicate StatesOk()
      reads this`units, this`labels, this`groups, this`lang, this`added, this`stored, this`table, this`numStates
      reads isIntersections
    {
      && Graph(units, labels, groups, lang) && Minimal(groups, added)
      && TableReady(table, groups, added, stored, numStates)
      && isIntersections.Valid() && |isIntersections.bits| == |units|
    }

    /** Between two insertions the path spells the last key. */
    ghost predicate Resting()
      reads this, isIntersections
    {
      && Consistent(0)
      && SeenFor(Path(levels), Contents())
      && (if levels == [] then target == 0
          else levels[|levels| - 1].label_ == 0 && target < MAX_VALUES)
    }

    /** The keys inserted so far, with their values. */
    ghost function Contents(): Dict
      reads this
    {
      Meaning(levels, target, lang)
    }

    /** The states and the table, and the path above them. */
    ghost function Now(): (s: Store)
      reads this`groups, this`added, this`table, this`units
      ensures s.table == table
    {
      Store(groups, added, table, |units|)
    }

    ghost function Sketch(): Draft
      reads this`groups, this`added, this`table, this`units, this`levels, this`target
    {
      Draft(Now(), levels, target)
    }

    lemma {:induction false} StateFacts()
      requires StatesOk()
      ensures groups.Keys == lang.Keys && added <= groups.Keys
      ensures numStates == |added| + 1 <= |table| - |table| / 4 && 0 < |table|
      ensures |isIntersections.bits| == |units| && forall g :: g in groups ==> 0 < g < |units|
    {
      hide Graph, TableReady, Minimal, BitVector.Valid;
      StatesInside(units, labels, groups, lang);
      SameKeys(units, labels, groups, lang);
      AddedStates(table, groups, added, stored, numStates);
    }

    lemma {:induction false} StateMeaning(g: nat)
      requires StatesOk() && g in groups
      ensures 0 < g < |units| && g in lang && lang[g] == ArcsDict(groups[g], lang)
    {
      hide Graph, TableReady, Minimal, BitVector.Valid, ArcsDict;
      FrozenMeaning(units, labels, groups, lang, g);
    }

    constructor ()
      ensures fresh(isIntersections) && Unused()
    {
      nodes, units, labels, table, nodeStack, recycleBin, numStates := [], [], [], [], [], [], 0;
      isIntersections := new BitVector();
      groups, lang, levels, target, chains, place := map[], map[], [], 0, [], map[];
      added, stored, repeats, seen := {}, {}, 0, map[];
    }

    method AppendUnit() returns (id: nat)
      requires isIntersections.Valid() && |isIntersections.bits| == |units| == |labels|
      modifies this`units, this`labels, isIntersections
      ensures units == old(units) + [0] && labels == old(labels) + [0] && id == old(|units|)
      ensures isIntersections.Valid() && |isIntersections.bits| == |units|
      ensures isIntersections.bits == old(isIntersections.bits) + [false]
    {
      isIntersections.Append();
      units := units + [0];
      labels := labels + [0];
      id := isIntersections.size - 1;
    }

    /** A node with default fields, recycled if possible. */
    method AppendNode() returns (id: nat)
      requires BinOk(nodes, recycleBin, place) && 0 < |nodes|
      modifies this`nodes, this`recycleBin
      ensures Allocated(old(nodes), old(recycleBin), place, nodes, recycleBin, id)
    {
      if recycleBin == [] {
        id := |nodes|;
        AllocateNew(nodes, place);
        nodes := nodes + [NEW_NODE];
      } else {
        id := recycleBin[|recycleBin| - 1];
        AllocateRecycled(nodes, recycleBin, place);
        nodes := nodes[id := NEW_NODE];
        recycleBin := recycleBin[..|recycleBin| - 1];
      }
    }

    ghost predicate Unused()
      reads this, isIntersections
    {
      && nodes == [] && units == [] && labels == [] && recycleBin == [] && nodeStack == []
      && NoKeys() && isIntersections.Valid() && isIntersections.bits == []
    }

    ghost predicate NoKeys()
      reads this`groups, this`lang, this`added, this`stored, this`repeats, this`seen
      reads this`levels, this`target, this`chains, this`place
    {
      && groups == map[] && lang == map[] && levels == [] && target == 0 && chains == [] && place == map[]
      && added == {} && stored == {} && repeats == 0 && seen == map[]
    }

    method Init()
      requires Unused()
      modifies this, isIntersections
      ensures Resting() && levels == [] && Contents() == map[] && repeats == 0
      ensures Sketch() == Draft(Store(map[], {}, EmptySlots(INITIAL_TABLE_SIZE), 1), [], 0)
    {
      hide Resting, Contents, NoKeys, EmptySlots, BitVector.Valid;
      table := EmptySlots(INITIAL_TABLE_SIZE);
      nodes := [NEW_NODE];
      var first := AppendUnit();
      numStates := 1;
      nodes := nodes[0 := nodes[0].(label_ := 0xFF)];
      nodeStack := nodeStack + [0];
      Started();
    }

    lemma {:induction false} Started()
      requires nodes == [DawgNode(0, 0, 0xFF, false, false)] && units == [0] && labels == [0] && nodeStack == [0]
      requires table == EmptySlots(INITIAL_TABLE_SIZE)
      requires numStates == 1 && recycleBin == [] && NoKeys()
      requires isIntersections.Valid() && isIntersections.bits == [false]
      ensures Resting() && levels == [] && Contents() == map[] && repeats == 0
      ensures Sketch() == Draft(Store(map[], {}, EmptySlots(INITIAL_TABLE_SIZE), 1), [], 0)
    {
      hide Physical, Graph, TableReady, Minimal, RepeatsOk, LevelsReady, BitVector.Valid, SeenOk;
      NothingSeen();
      InitialPath(nodes);
      InitialGraph(units, labels);
      InitialTable();
    }

    /** hash_unit: the hash of a frozen state, read from its first unit on. */
    method HashUnit(id: nat) returns (h: nat)
      requires Graph(units, labels, groups, lang) && id in groups
      ensures h == StateHash(groups[id])
    {
      hide Xor, Hash, ArcWord, ArcHash, XorAll, ArcsDict, NulFree;
      ghost var arcs := groups[id];
      ghost var hashes := ArcHashes(arcs);
      assert StateOk(units, labels, groups, lang, id);
      h := 0;
      var i := id;
      XorNothing(hashes);
      while i != 0
        invariant id <= i < id + |arcs|
        invariant h == XorAll(hashes[..i - id])
        decreases id + |arcs| - i
      {
        assert UnitAt(units, labels, id, arcs, i - id);
        ReadArcWord(arcs[i - id], i == id, i - id + 1 < |arcs|);
        XorForwards(hashes, i - id);
        var unit := units[i];
        var c := labels[i];
        h := Xor(h, ArcHash(c, unit));
        if !UnitHasSibling(unit) {
          assert hashes[..|hashes|] == hashes;
          return;
        }
        i := i + 1;
      }
    }

    /** hash_node: the hash of the state that a chain of nodes will become. */
    method HashNode(nodeId: nat, ghost chain: seq<nat>, ghost arcs: seq<Arc>) returns (h: nat)
      requires ChainIs(nodes, chain, arcs) && nodeId == ChainAt(chain, |chain|)
      ensures h == StateHash(arcs)
    {
      hide Xor, Hash, ArcWord, ArcHash, XorAll, ChainIs;
      ghost var hashes := ArcHashes(arcs);
      h := 0;
      var id := nodeId;
      ghost var j := |chain|;
      assert hashes[..|hashes|] == hashes;
      XorNothing(hashes);
      ChainSizes(nodes, chain, arcs);
      while id != 0
        invariant 0 <= j <= |chain| == |arcs| && id == ChainAt(chain, j)
        invariant Xor(h, XorAll(hashes[..j])) == XorAll(hashes)
        decreases j
      {
        ArcNodeRead(nodes, chain, arcs, j - 1);
        XorBackwards(hashes, j, h);
        h := Xor(h, ArcHash(nodes[id].label_, nodes[id].Word()));
        id := nodes[id].sibling;
        j := j - 1;
      }
      ChainEnd(nodes, chain, arcs, j);
      XorRest(hashes, h);
    }

    /** are_equal: whether a chain of nodes spells the arcs of a frozen state. */
    method AreEqual(nodeId: nat, unitId: nat, ghost chain: seq<nat>, ghost arcs: seq<Arc>) returns (equal: bool)
      requires ChainIs(nodes, chain, arcs) && nodeId == ChainAt(chain, |chain|)
      requires Graph(units, labels, groups, lang) && unitId in groups
      ensures equal <==> groups[unitId] == arcs
    {
      hide ChainIs, ArcWord, ArcsDict, NulFree, Graph;
      ghost var known := groups[unitId];
      ChainSizes(nodes, chain, arcs);
      ArcNodeRead(nodes, chain, arcs, |chain| - 1);
      StoredSizes(units, labels, groups, lang, unitId);
      var id, i := unitId, nodes[nodeId].sibling;
      ghost var j := |chain| - 1;
      while i != 0
        invariant 0 <= j < |chain| && i == ChainAt(chain, j)
        invariant id == unitId + (|chain| - 1 - j) < unitId + |known|
        decreases j
      {
        StoredUnit(units, labels, groups, lang, unitId, id - unitId);
        ArcNodeRead(nodes, chain, arcs, j - 1);
        if !UnitHasSibling(units[id]) {
          return false;
        }
        id := id + 1;
        i := nodes[i].sibling;
        j := j - 1;
      }
      ChainEnd(nodes, chain, arcs, j);
      StoredUnit(units, labels, groups, lang, unitId, id - unitId);
      if UnitHasSibling(units[id]) {
        return false;
      }
      assert |known| == |arcs|;
      i := nodeId;
      j := |chain|;
      while i != 0
        invariant 0 <= j <= |chain| && i == ChainAt(chain, j)
        invariant j > 0 ==> id == unitId + j - 1
        invariant forall k :: j <= k < |arcs| ==> known[k] == arcs[k]
        decreases j
      {
        ArcNodeRead(nodes, chain, arcs, j - 1);
        StoredUnit(units, labels, groups, lang, unitId, j - 1);
        if nodes[i].Word() != units[id] || nodes[i].label_ != labels[id] {
          return false;
        }
        ArcWordInjective(known[j - 1], arcs[j - 1], j == 1, j < |arcs|);
        i := nodes[i].sibling;
        id := id - 1;
        j := j - 1;
      }
      ChainEnd(nodes, chain, arcs, j);
      assert known == arcs;
      equal := true;
    }

    /**
      find_node: the frozen state with the arcs of a chain, or 0 and the position
      where such a state belongs. The loop ends unless it misses at every step.
     */
    method FindNode(nodeId: nat, ghost chain: seq<nat>, ghost arcs: seq<Arc>)
      returns (matchId: nat, hashId: nat, ghost d: nat)
      requires ChainIs(nodes, chain, arcs) && nodeId == ChainAt(chain, |chain|)
      requires StatesOk() && |table| > 0 && !Endless(table, groups, arcs, StateHash(arcs) % |table|)
      ensures added <= stored <= groups.Keys
      ensures hashId < |table| && hashId == Probe(StateHash(arcs) % |table|, d, |table|) && matchId == table[hashId]
      ensures StopsAt(table, groups, arcs, StateHash(arcs) % |table|, d)
      ensures matchId != 0 ==> matchId in stored && groups[matchId] == arcs
      ensures matchId == 0 ==>
        && (forall g :: g in stored ==> groups[g] != arcs)
        && EmptyAt(table, StateHash(arcs), d, hashId)
    {
      hide ChainIs, Graph, Minimal, TableReady, TableOk, FoundAt, Probe, StateHash, Occupied, BitVector.Valid;
      TableFacts(table, groups, added, stored, numStates);
      var h := HashNode(nodeId, chain, arcs);
      TableMembers(table, groups, stored);
      ghost var start, n := h % |table|, |table|;
      ghost var last: nat :| !MissedAt(table, groups, arcs, start, last);
      hashId := h % |table|;
      d := 0;
      ProbeStart(start, n);
      while true
        invariant 0 <= d <= last && hashId == Probe(start, d, n) && hashId < n
        invariant forall i: nat :: i < d ==> MissedAt(table, groups, arcs, start, i)
        decreases last - d
      {
        matchId := table[hashId];
        if matchId == 0 {
          EmptyFound(table, groups, arcs, start, d);
          NoneMatches(table, groups, stored, arcs, h, d);
          return;
        }
        var equal := AreEqual(nodeId, matchId, chain, arcs);
        if equal {
          return;
        }
        assert MissedAt(table, groups, arcs, start, d);
        ProbeStep(start, d, n);
        hashId := (hashId + 1) % |table|;
        d := d + 1;
      }
    }

    /**
      find_unit: the first empty position for a state that is not in the table. The
      loop ends unless every position it meets is taken.
     */
    method FindUnit(id: nat) returns (hashId: nat, ghost d: nat)
      requires Graph(units, labels, groups, lang) && id in groups
      requires |table| > 0 && !AllTaken(table, StateHash(groups[id]) % |table|)
      ensures EmptyAt(table, StateHash(groups[id]), d, hashId)
      ensures hashId < |table| && table[hashId] == 0
    {
      hide Graph, FoundAt, Probe, StateHash, Occupied;
      var h := HashUnit(id);
      ghost var start, n := h % |table|, |table|;
      ghost var last: nat :| !TakenAt(table, start, last);
      hashId := h % |table|;
      d := 0;
      ProbeStart(start, n);
      while true
        invariant 0 <= d <= last && hashId == Probe(start, d, n) && hashId < n
        invariant forall i: nat :: i < d ==> TakenAt(table, start, i)
        decreases last - d
      {
        var unitId := table[hashId];
        if unitId == 0 {
          FirstEmpty(table, start, d);
          return;
        }
        assert TakenAt(table, start, d);
        ProbeStep(start, d, n);
        hashId := (hashId + 1) % |table|;
        d := d + 1;
      }
    }

    /** expand_table: a table of twice the size with all that looks like a state. */
    method ExpandTable()
      requires StatesOk() && |table| > 0 && Filled(groups, 2 * |table|, |units|).Some?
      modifies this`table, this`stored
      ensures StatesOk() && Filled(groups, 2 * old(|table|), |units|) == Some(table) && |table| == 2 * old(|table|)
      ensures stored == groups.Keys
    {
      hide Graph, Minimal, TableOk, TableReady, StateHash, Occupied, HeadUnitOk, EmptyAt, BitVector.Valid;
      hide Filled, FreeAt, AllTaken, PutUnit;
      ghost var table0 := table;
      var tableSize := |table| * 2;
      table := EmptySlots(tableSize);
      EmptyTable(table, groups);
      NothingFilled(groups, tableSize);
      StatesInside(units, labels, groups, lang);
      for i := 1 to |units|
        invariant |table| == tableSize && stored == old(stored)
        invariant TableOk(table, StatesBelow(groups, i), HashOf(groups))
        invariant Occupied(table) == |StatesBelow(groups, i)| && Filled(groups, tableSize, i) == Some(table)
      {
        FilledBefore(groups, tableSize, i + 1, |units|);
        FilledNext(groups, tableSize, i, table);
        IsHead(units, labels, groups, lang, i);
        BelowNext(groups, i);
        if labels[i] == 0 || UnitIsState(units[i]) {
          ghost var d;
          var hashId;
          hashId, d := FindUnit(i);
          StoreState(table, groups, StatesBelow(groups, i), i, d, hashId);
          PutEmpty(table, StateHash(groups[i]), i, d, hashId);
          table := table[hashId := i];
        }
      }
      AllBelow(groups, |units|);
      ExpandedTable(table0, groups, added, stored, numStates, table);
      stored := groups.Keys;
    }

    method CountSiblings(nodeId: nat, ghost chain: seq<nat>, ghost arcs: seq<Arc>) returns (n: nat)
      requires ChainIs(nodes, chain, arcs) && nodeId == ChainAt(chain, |chain|)
      ensures n == |chain|
    {
      hide ChainIs;
      ChainSizes(nodes, chain, arcs);
      n := 0;
      var i := nodeId;
      ghost var j := |chain|;
      while i != 0
        invariant 0 <= j <= |chain| && i == ChainAt(chain, j) && n == |chain| - j
        decreases j
      {
        ArcNodeRead(nodes, chain, arcs, j - 1);
        n := n + 1;
        i := nodes[i].sibling;
        j := j - 1;
      }
      ChainEnd(nodes, chain, arcs, j);
    }

    /** Adds blank units for the arcs of a new state. */
    method AppendUnits(n: nat) returns (unitId: nat)
      requires isIntersections.Valid() && |isIntersections.bits| == |units| == |labels| > 0
      modifies this`units, this`labels, isIntersections
      ensures old(units) <= units && old(labels) <= labels && |units| == |labels| == old(|units|) + n
      ensures isIntersections.Valid() && |isIntersections.bits| == |units|
      ensures isIntersections.bits == Unmarked(old(isIntersections.bits), n)
      ensures n > 0 ==> unitId == |units| - 1
    {
      hide BitVector.Valid;
      unitId := 0;
      for i := 0 to n
        invariant isIntersections.Valid() && |isIntersections.bits| == |units| == |labels| == old(|units|) + i
        invariant old(units) <= units && old(labels) <= labels
        invariant isIntersections.bits == Unmarked(old(isIntersections.bits), i)
        invariant i > 0 ==> unitId == |units| - 1
      {
        unitId := AppendUnit();
      }
    }

    /** Copies a chain of nodes into the units from g on, from the last arc to the first. */
    method FillUnits(nodeId: nat, lastUnit: nat, ghost g: nat, ghost chain: seq<nat>, ghost arcs: seq<Arc>)
      returns (matchId: nat)
      requires ChainIs(nodes, chain, arcs) && nodeId == ChainAt(chain, |chain|)
      requires 0 < g && |units| == |labels| == g + |arcs| && lastUnit == |units| - 1
      modifies this`units, this`labels
      ensures matchId == g && |units| == old(|units|) && |labels| == old(|labels|)
      ensures units[..g] == old(units[..g]) && labels[..g] == old(labels[..g])
      ensures StateAt(units, labels, g, arcs)
    {
      hide ChainIs, ArcWord;
      ChainSizes(nodes, chain, arcs);
      var unitId, i := lastUnit, nodeId;
      ghost var j := |chain|;
      while i != 0
        invariant 0 <= j <= |chain| == |arcs| && i == ChainAt(chain, j) && unitId == g + j - 1
        invariant |units| == |labels| == g + |arcs|
        invariant units[..g] == old(units[..g]) && labels[..g] == old(labels[..g])
        invariant forall k :: j <= k < |arcs| ==> UnitAt(units, labels, g, arcs, k)
        decreases j
      {
        ArcNodeRead(nodes, chain, arcs, j - 1);
        ghost var units0, labels0 := units, labels;
        units := units[unitId := nodes[i].Word()];
        labels := labels[unitId := nodes[i].label_];
        forall k | j - 1 <= k < |arcs|
          ensures UnitAt(units, labels, g, arcs, k)
        {
          if k >= j {
            assert UnitAt(units0, labels0, g, arcs, k);
          }
        }
        i := nodes[i].sibling;
        unitId := unitId - 1;
        j := j - 1;
      }
      ChainEnd(nodes, chain, arcs, j);
      matchId := unitId + 1;
    }

    /** The branch of flush that freezes a state that is not there yet. */
    method AddState(nodeId: nat, numSiblings: nat, hashId: nat, ghost d: nat,
                    ghost chain: seq<nat>, ghost arcs: seq<Arc>) returns (matchId: nat)
      requires ChainIs(nodes, chain, arcs) && nodeId == ChainAt(chain, |chain|) && numSiblings == |chain|
      requires StatesOk() && numStates < |table| - |table| / 4
      requires added <= stored <= groups.Keys && forall g :: g in stored ==> groups[g] != arcs
      requires EmptyAt(table, StateHash(arcs), d, hashId) && ArcsOk(arcs, lang, |units|)
      modifies this`units, this`labels, this`table, this`numStates, this`groups, this`lang, this`added, this`stored
      modifies isIntersections
      ensures StatesOk() && old(|units|) <= |units|
      ensures matchId in groups && groups[matchId] == arcs && matchId !in old(groups)
      ensures Frozen(old(groups), old(added), arcs, matchId, groups, added) && Grows(old(lang), lang)
      ensures hashId < old(|table|) && FreezeAt(old(Now()), arcs, hashId) == Froze(Now(), matchId)
      ensures isIntersections.bits == Unmarked(old(isIntersections.bits), |arcs|) && matchId == old(|units|)
    {
      hide ChainIs, Graph, TableReady, EmptyAt, StateHash, StateAt, ArcsDict, ArcsOk, BitVector.Valid, Minimal;
      hide NewStates, NewMeanings, Unmarked;
      ChainSizes(nodes, chain, arcs);
      EmptyIsFree(table, StateHash(arcs), d, hashId);
      StatesInside(units, labels, groups, lang);
      ghost var g, units0, labels0 := |units|, units, labels;
      var unitId := AppendUnits(numSiblings);
      matchId := FillUnits(nodeId, unitId, g, chain, arcs);
      PrefixKept(units0, old(units), units);
      AppendState(units0, labels0, groups, lang, arcs, units, labels);
      ghost var groups1 := groups + NewStates(g, arcs);
      StoreNew(table, groups, added, stored, numStates, arcs, groups1, g, d, hashId);
      NewIsMinimal(groups, added, stored, arcs, groups1, g);
      table := table[hashId := matchId];
      numStates := numStates + 1;
      lang := lang + NewMeanings(g, arcs, lang);
      groups, added, stored := groups1, added + {g}, stored + {g};
    }

    /** Puts the nodes of a chain into the recycle bin, the newest first. */
    method FreeNodes(nodeId: nat, ghost chain: seq<nat>, ghost arcs: seq<Arc>)
      requires ChainIs(nodes, chain, arcs) && nodeId == ChainAt(chain, |chain|)
      modifies this`recycleBin
      ensures recycleBin == old(recycleBin) + Reverse(chain)
    {
      hide ChainIs, Reverse;
      ChainSizes(nodes, chain, arcs);
      var i := nodeId;
      ghost var j := |chain|;
      ReverseStart(chain);
      while i != 0
        invariant 0 <= j <= |chain| && i == ChainAt(chain, j)
        invariant recycleBin + Reverse(chain[..j]) == old(recycleBin) + Reverse(chain)
        decreases j
      {
        ArcNodeRead(nodes, chain, arcs, j - 1);
        ReverseStep(chain, j);
        var next := nodes[i].sibling;
        recycleBin := recycleBin + [i];
        i := next;
        j := j - 1;
      }
      ChainEnd(nodes, chain, arcs, j);
      ReverseEnd(chain);
    }

    method MarkState(g: nat)
      requires StatesOk() && g in groups
      modifies isIntersections
      ensures StatesOk() && g < old(|isIntersections.bits|)
      ensures isIntersections.bits == old(isIntersections.bits)[g := true]
    {
      hide Graph, TableReady, Minimal, BitVector.Valid;
      StatesInside(units, labels, groups, lang);
      isIntersections.Set(g, true);
    }

    /**
      The first part of a round of flush: the frozen state with the arcs of a chain,
      which is marked as shared if it was there already.
     */
    method FindOrAdd(nodeId: nat, ghost chain: seq<nat>, ghost arcs: seq<Arc>) returns (matchId: nat)
      requires ChainIs(nodes, chain, arcs) && nodeId == ChainAt(chain, |chain|)
      requires StatesOk() && ArcsOk(arcs, lang, |units|) && 0 < |table| && FreezeArcs(Now(), arcs).Froze?
      modifies this`units, this`labels, this`table, this`numStates, this`groups, this`lang, this`added, this`stored
      modifies isIntersections
      ensures StatesOk() && old(|units|) <= |units|
      ensures matchId in groups && groups[matchId] == arcs
      ensures FreezeArcs(old(Now()), arcs) == Froze(Now(), matchId)
      ensures Frozen(old(groups), old(added), arcs, matchId, groups, added) && Grows(old(lang), lang)
      ensures Marked(old(isIntersections.bits), arcs, matchId, matchId in old(groups), isIntersections.bits)
    {
      hide StatesOk, ChainIs, ArcsOk, EmptyAt, NewStates, Unmarked, FreezeArcs, FreezeAt, StopsAt, Endless, StateHash;
      hide Filled, Probe;
      StateFacts();
      FreezeMeans(Now(), arcs);
      ghost var s := Now();
      if numStates >= |table| - |table| / 4 {
        ExpandTable();
      }
      var numSiblings := CountSiblings(nodeId, chain, arcs);
      var hashId; ghost var d;
      matchId, hashId, d := FindNode(nodeId, chain, arcs);
      FreezeIs(s, arcs, d);
      FoundOrNew(Now(), arcs, hashId);
      if matchId != 0 {
        MarkState(matchId);
      } else {
        matchId := AddState(nodeId, numSiblings, hashId, d, chain, arcs);
      }
    }

    /** The last part of a round of flush: frees the top chain, whose parent now leads to matchId. */
    method DropTop(nodeId: nat, matchId: nat, ghost marked: nat)
      requires Physical(nodes, chains, levels, target, recycleBin, place, marked)
      requires chains != [] && levels != [] && Top(chains) != marked && nodeId == Top(chains)
      requires nodeStack == Stack(chains[..|chains| - 1])
      modifies this`nodes, this`recycleBin, this`levels, this`chains, this`target, this`place
      ensures Physical(nodes, chains, levels, target, recycleBin, place, marked)
      ensures target == matchId && nodeStack == Stack(chains)
      ensures levels == old(levels)[..|old(levels)| - 1] && chains == old(chains)[..|old(chains)| - 1]
    {
      hide Physical, ChainIs, Reverse;
      TopChain(nodes, chains, levels, target, recycleBin, place, marked);
      StackInit(chains);
      ghost var n := |chains|;
      ghost var chain, arcs, bin0 := chains[n - 1], Group(levels[n - 1], target), recycleBin;
      ChainSizes(nodes, chain, arcs);
      FreeNodes(nodeId, chain, arcs);
      PopLevel(nodes, chains, levels, target, bin0, place, marked, matchId);
      var above := nodeStack[|nodeStack| - 1];
      nodes := nodes[above := nodes[above].(child := matchId)];
      levels, chains, target := levels[..n - 1], chains[..n - 1], matchId;
      place := PlacesBelow(place, n - 1);
    }

    /** Finds or freezes the state of the top chain, which is still in place. */
    method FreezeState(nodeId: nat, ghost marked: nat) returns (matchId: nat)
      requires Core(marked) && chains != [] && levels != [] && Top(chains) != marked && nodeId == Top(chains)
      requires ArcOk(Arc(levels[|levels| - 1].label_, target), lang, |units|)
      requires SeenFor(Path(levels), Contents())
      requires 0 < |table| && FreezeArcs(Now(), Group(levels[|levels| - 1], target)).Froze?
      modifies this`units, this`labels, this`table, this`numStates, this`groups, this`lang, this`added, this`stored
      modifies this`seen, isIntersections
      ensures StatesOk() && old(|units|) <= |units|
      ensures LevelsReady(levels[..|levels| - 1], lang, |units|)
      ensures RepeatsOk(groups, added, levels[..|levels| - 1], repeats)
      ensures Flushed(levels, target, old(lang), levels[..|levels| - 1], matchId, lang)
      ensures matchId in groups && groups[matchId] == Group(levels[|levels| - 1], target)
      ensures FreezeArcs(old(Now()), Group(levels[|levels| - 1], target)) == Froze(Now(), matchId)
      ensures matchId in lang && matchId < |units|
      ensures SeenFor(Path(levels[..|levels| - 1]), old(Contents()))
    {
      hide Physical, StatesOk, RepeatsOk, LevelsReady, ArcOk, ChainIs, ArcsOk, Group, LevelsOk;
      hide Now, FreezeArcs, Stack, Frozen, Marked, Flushed, Grows, Top, ChainAt, ArcsDict, SeenOk, Path, Meaning;
      BeforeFreeze(nodes, chains, levels, target, recycleBin, place, marked, lang, |units|);
      ghost var chain, arcs := chains[|chains| - 1], Group(levels[|levels| - 1], target);
      ghost var lang0, groups0, added0, size0, bits0 := lang, groups, added, |units|, isIntersections.bits;
      StateFacts();
      matchId := FindOrAdd(nodeId, chain, arcs);
      StateFacts();
      StateMeaning(matchId);
      AfterFreeze(levels, target, groups0, added0, lang0, size0, groups, added, lang, |units|, matchId, repeats);
      SeenFreeze(seen, levels, target, groups0, lang0, added0, bits0, groups, lang, added, isIntersections.bits,
                 matchId);
      seen := seen[Path(levels[..|levels| - 1]) := matchId];
    }

    /**
      One round of flush: the state on top of the stack is looked up or frozen, its
      nodes are freed, and the node above leads to it.
     */
    method FreezeTop(ghost marked: nat)
      requires Consistent(marked) && chains != [] && levels != [] && Top(chains) != marked
      requires ArcOk(Arc(levels[|levels| - 1].label_, target), lang, |units|)
      requires SeenFor(Path(levels), Contents())
      requires 0 < |table| && FreezeArcs(Now(), Group(levels[|levels| - 1], target)).Froze?
      modifies this, isIntersections
      ensures Consistent(marked)
      ensures levels == old(levels)[..|old(levels)| - 1] && chains == old(chains)[..|old(chains)| - 1]
      ensures Flushed(old(levels), old(target), old(lang), levels, target, lang)
      ensures SeenFor(Path(levels), old(Contents()))
      ensures old(|units|) <= |units| && repeats == old(repeats) && target in lang && target < |units|
      ensures FreezeArcs(old(Now()), Group(old(levels)[|old(levels)| - 1], old(target))) == Froze(Now(), target)
      ensures target in groups && groups[target] == Group(old(levels)[|old(levels)| - 1], old(target))
    {
      hide Physical, StatesOk, RepeatsOk, LevelsReady, ArcOk, Group, Stack, Flushed, Top, SeenFor, Path, FreezeArcs;
      hide Now, Meaning, FreezeAt;
      ghost var n, target0 := |levels|, target;
      TopNode(nodes, chains, levels, target, recycleBin, place, marked);
      StackInit(chains);
      var nodeId := nodeStack[|nodeStack| - 1];
      nodeStack := nodeStack[..|nodeStack| - 1];
      var matchId := FreezeState(nodeId, marked);
      DropTop(nodeId, matchId, marked);
    }

    /** Between two rounds of flush, which started with the path and the states that `before` holds. */
    ghost predicate Flushing(before: Draft, chains0: seq<seq<nat>>, lang0: map<nat, Dict>, keep: nat, id: nat,
                             marked: nat): (b: bool)
      reads this, isIntersections
      ensures b ==> nodeStack != []
    {
      && Consistent(marked) && keep <= |chains| == |levels| <= |before.levels| && |chains| <= |chains0|
      && chains == chains0[..|chains|] && levels == before.levels[..|levels|]
      && id == Stack(chains)[keep] && (marked == 0 || marked == id)
      && 0 < |before.store.table| && 0 < |table|
      && FlushTo(before.store, before.levels, before.target, keep).Froze?
      && FlushTo(Now(), levels, target, keep) == FlushTo(before.store, before.levels, before.target, keep)
      && LevelsReady(before.levels, lang0, before.store.size)
      && Flushed(before.levels, before.target, lang0, levels, target, lang)
      && SeenFor(Path(levels), Meaning(before.levels, before.target, lang0))
      && (levels != [] ==> ArcOk(Arc(levels[|levels| - 1].label_, target), lang, |units|))
      && (levels == [] && before.levels != [] ==> target in groups)
      && (|levels| > keep ==> nodeStack[|nodeStack| - 1] != id && id != Top(chains) && Top(chains) != 0)
      && (|levels| == keep ==> nodeStack[|nodeStack| - 1] == id)
    }

    method FlushRound(ghost before: Draft, ghost chains0: seq<seq<nat>>, ghost lang0: map<nat, Dict>, ghost keep: nat,
                      ghost id: nat, ghost marked: nat)
      requires Flushing(before, chains0, lang0, keep, id, marked) && nodeStack[|nodeStack| - 1] != id
      modifies this, isIntersections
      ensures Flushing(before, chains0, lang0, keep, id, marked) && |levels| + 1 == old(|levels|)
      ensures repeats == old(repeats)
    {
      hide Physical, StatesOk, RepeatsOk, LevelsReady, ArcOk, Flushed, Stack, Top, Group, SeenFor, Path, Meaning;
      hide FlushTo, FreezeArcs, Now;
      ghost var levels1, target1, lang1, chains1 := levels, target, lang, chains;
      FlushStep(Now(), levels, target, keep);
      FlushedContents(before.levels, before.target, lang0, levels, target, lang);
      FreezeTop(marked);
      FlushedTwice(before.levels, before.target, lang0, levels1, target1, lang1, levels, target, lang);
      if levels != [] {
        NextOpen(before.levels, |levels|, lang0, before.store.size, lang, target, |units|);
      }
      StackShorter(chains1, keep);
      SameLength(nodes, chains, levels, target, recycleBin, place, marked);
      StackDistinct(nodes, chains, levels, target, recycleBin, place, marked, keep);
    }

    lemma {:induction false} FlushStart(id: nat, keep: nat, marked: nat)
      requires Consistent(marked) && keep <= |chains| && id == Stack(chains)[keep] && (marked == 0 || marked == id)
      requires levels != [] ==> ArcOk(Arc(levels[|levels| - 1].label_, target), lang, |units|)
      requires SeenFor(Path(levels), Meaning(levels, target, lang))
      requires 0 < |table| && FlushTo(Now(), levels, target, keep).Froze?
      ensures Flushing(Sketch(), chains, lang, keep, id, marked)
    {
      hide Physical, StatesOk, RepeatsOk, LevelsReady, ArcOk, Flushed, Stack, Top, Group, SeenFor, Path, Meaning;
      hide FlushTo, FreezeArcs;
      FlushedNothing(levels, target, lang);
      SameLength(nodes, chains, levels, target, recycleBin, place, marked);
      StackDistinct(nodes, chains, levels, target, recycleBin, place, marked, keep);
    }

    lemma {:induction false} FlushEnd(before: Draft, chains0: seq<seq<nat>>, lang0: map<nat, Dict>, keep: nat, id: nat,
                                      marked: nat)
      requires Flushing(before, chains0, lang0, keep, id, marked) && nodeStack[|nodeStack| - 1] == id
      ensures Core(marked) && nodeStack[..|nodeStack| - 1] + [id] == Stack(chains)
      ensures keep < |Stack(chains0)| && nodeStack[..|nodeStack| - 1] == Stack(chains0)[..keep]
      ensures keep <= |before.levels| && levels == before.levels[..keep] && |chains| == keep
      ensures Flushed(before.levels, before.target, lang0, levels, target, lang)
      ensures levels != [] ==> ArcOk(Arc(levels[|levels| - 1].label_, target), lang, |units|)
      ensures levels == [] && before.levels != [] ==> target in groups
      ensures SeenFor(Path(levels), Meaning(before.levels, before.target, lang0))
      ensures 0 < |before.store.table|
      ensures FlushTo(before.store, before.levels, before.target, keep) == Froze(Now(), target)
    {
      hide Physical, StatesOk, RepeatsOk, LevelsReady, ArcOk, Flushed, Stack, Top, Group, SeenFor, Path, Meaning;
      hide FlushTo, FreezeArcs, Now;
      FlushDone(Now(), levels, target, keep);
      StackLast(chains);
      StackPrefix(chains0, keep);
    }

    /**
      Freezes the path from its end up to, not including, the level that node id
      heads, and takes id off the stack.
     */
    method Flush(id: nat, ghost keep: nat, ghost marked: nat)
      requires Consistent(marked) && keep <= |chains| && id == Stack(chains)[keep] && (marked == 0 || marked == id)
      requires levels != [] ==> ArcOk(Arc(levels[|levels| - 1].label_, target), lang, |units|)
      requires SeenFor(Path(levels), Contents())
      requires 0 < |table| && FlushTo(Now(), levels, target, keep).Froze?
      modifies this, isIntersections
      ensures Core(marked) && nodeStack + [id] == Stack(chains)
      ensures keep < |old(nodeStack)| && nodeStack == old(nodeStack)[..keep]
      ensures keep <= |old(levels)| && levels == old(levels)[..keep] && |chains| == keep
      ensures Flushed(old(levels), old(target), old(lang), levels, target, lang)
      ensures levels != [] ==> ArcOk(Arc(levels[|levels| - 1].label_, target), lang, |units|)
      ensures levels == [] && old(levels) != [] ==> target in groups
      ensures SeenFor(Path(levels), old(Contents()))
      ensures FlushTo(old(Now()), old(levels), old(target), keep) == Froze(Now(), target)
      ensures repeats == old(repeats)
    {
      hide Flushing, Physical, StatesOk, RepeatsOk, LevelsReady, Stack, Flushed, ArcOk, SeenFor, FlushTo, Now, Path;
      hide Meaning;
      FlushStart(id, keep, marked);
      ghost var before, chains0, lang0 := Sketch(), chains, lang;
      while nodeStack[|nodeStack| - 1] != id
        invariant Flushing(before, chains0, lang0, keep, id, marked) && repeats == old(repeats)
        decreases |levels|
      {
        FlushRound(before, chains0, lang0, keep, id, marked);
      }
      FlushEnd(before, chains0, lang0, keep, id, marked);
      nodeStack := nodeStack[..|nodeStack| - 1];
    }

    /**
      One round of the second loop of insert: a new node for label c below node id,
      in front of the children that id already has.
     */
    method PushNode(id: nat, c: Byte) returns (childId: nat)
      requires BinOk(nodes, recycleBin, place) && id < |nodes| && (id == 0 || id in place)
      modifies this`nodes, this`recycleBin, this`nodeStack
      ensures Pushed(old(nodes), old(recycleBin), place, id, c, nodes, recycleBin, childId)
      ensures nodeStack == old(nodeStack) + [childId]
    {
      childId := AppendNode();
      assert Allocated(old(nodes), old(recycleBin), place, nodes, recycleBin, childId);
      ghost var nodes1 := nodes;
      if nodes[id].child == 0 {
        nodes := nodes[childId := nodes[childId].(isState := true)];
      }
      nodes := nodes[childId := nodes[childId].(sibling := nodes[id].child)];
      nodes := nodes[childId := nodes[childId].(label_ := c)];
      nodes := nodes[id := nodes[id].(child := childId)];
      nodeStack := nodeStack + [childId];
      assert PushedFrom(nodes1, id, c, nodes, childId);
    }

    /** Records a longer path whose nodes are in place. */
    ghost method SetPath(chains': seq<seq<nat>>, levels': seq<Level>, place': map<nat, (nat, nat)>, repeats': nat)
      requires Physical(nodes, chains', levels', 0, recycleBin, place', 0) && nodeStack == Stack(chains')
      requires StatesOk() && LevelsReady(levels', lang, |units|) && RepeatsOk(groups, added, levels', repeats')
      modifies this`chains, this`levels, this`target, this`place, this`repeats
      ensures Consistent(0) && chains == chains' && levels == levels' && target == 0 && repeats == repeats'
    {
      hide Physical, StatesOk, RepeatsOk, LevelsReady, Stack;
      chains, levels, target, place, repeats := chains', levels', 0, place', repeats';
    }

    /** Pushes a first child below the top node. */
    method PushFirst(id: nat, c: Byte) returns (childId: nat)
      requires Consistent(0) && target == 0 && id == Top(chains)
      requires levels != [] ==> levels[|levels| - 1].label_ != 0
      modifies this`nodes, this`recycleBin, this`nodeStack
      modifies this`chains, this`levels, this`place, this`target, this`repeats
      ensures Consistent(0) && target == 0 && childId == Top(chains) && repeats == old(repeats)
      ensures levels == old(levels) + [Level([], c)]
    {
      hide Physical, StatesOk, RepeatsOk, LevelsReady, Pushed, Stack, BinOk;
      BeforePush(nodes, chains, levels, target, recycleBin, place, 0);
      childId := PushNode(id, c);
      FreshPushed(old(nodes), chains, levels, old(recycleBin), place, nodes, recycleBin, childId, c);
      FreshLevelReady(levels, c, lang, |units|);
      RepeatsFresh(groups, added, levels, repeats, c);
      StackAppend(chains, [childId]);
      SetPath(chains + [[childId]], levels + [Level([], c)], place[childId := (|chains|, 0)], repeats);
    }

    /** Pushes a larger sibling, or a second terminator, in front of the last level's head, closed on its target. */
    method PushNext(id: nat, c: Byte) returns (childId: nat)
      requires chains != [] && Core(Top(chains)) && nodeStack + [Top(chains)] == Stack(chains)
      requires levels != [] && id == Top(chains[..|chains| - 1]) && LabelBefore(levels[|levels| - 1].label_, c)
      requires ArcOk(Arc(levels[|levels| - 1].label_, target), lang, |units|)
      modifies this`nodes, this`recycleBin, this`nodeStack
      modifies this`chains, this`levels, this`place, this`target, this`repeats
      ensures Consistent(0) && target == 0 && childId == Top(chains)
      ensures repeats == old(repeats) + if c == 0 then 1 else 0
      ensures levels == old(levels)[..|old(levels)| - 1]
        + [Level(Group(old(levels)[|old(levels)| - 1], old(target)), c)]
    {
      hide Physical, StatesOk, RepeatsOk, LevelsReady, Pushed, Stack, BinOk, ArcOk, Group;
      BeforePush(nodes, chains, levels, target, recycleBin, place, Top(chains));
      childId := PushNode(id, c);
      SiblingPushed(old(nodes), chains, levels, target, old(recycleBin), place, nodes, recycleBin, childId, c);
      SiblingLevelReady(levels, target, c, lang, |units|);
      RepeatsNext(groups, added, levels, repeats, target, c);
      ghost var k := |chains| - 1;
      StackReplace(chains, chains[k] + [childId]);
      SetPath(chains[..k] + [chains[k] + [childId]], levels[..k] + [Level(Group(levels[k], target), c)],
              place[childId := (k, |chains[k]|)], repeats + if c == 0 then 1 else 0);
    }

    /** The rest of the second loop of insert: fresh nodes down to the terminator. */
    method PushSuffix(start: nat, key: Key, from: nat) returns (id: nat)
      requires Consistent(0) && target == 0 && start == Top(chains)
      requires from <= |key| + 1 && NulFreeKey(key)
      requires from <= |key| ==> (levels != [] ==> levels[|levels| - 1].label_ != 0)
      modifies this`nodes, this`recycleBin, this`nodeStack
      modifies this`chains, this`levels, this`place, this`target, this`repeats
      ensures Consistent(0) && target == 0 && id == Top(chains) && repeats == old(repeats)
      ensures levels == old(levels) + Fresh(Terminated(key)[from..])
    {
      hide Core, Stack, Top, Fresh, Path;
      id := start;
      ghost var all := Terminated(key);
      FreshNothing(all, from);
      for keyPos := from to |key| + 1
        invariant Consistent(0) && target == 0 && id == Top(chains) && repeats == old(repeats)
        invariant keyPos <= |key| ==> (levels != [] ==> levels[|levels| - 1].label_ != 0)
        invariant levels == old(levels) + Fresh(all[from..keyPos])
      {
        var keyLabel := if keyPos < |key| then key[keyPos] else 0;
        FreshMore(all, from, keyPos);
        ghost var before := levels;
        id := PushFirst(id, keyLabel);
        assert levels == old(levels) + (Fresh(all[from..keyPos]) + [Level([], keyLabel)]);
      }
      assert all[from..|key| + 1] == all[from..];
    }

    lemma {:induction false} RestingLevels()
      requires Resting()
      ensures LevelsOk(levels, lang) && PathEnds(levels)
    {
      hide Physical, StatesOk, RepeatsOk, Stack, LevelsReady, SeenFor;
      ReadyLevels(levels, lang, |units|);
      RestingPath(levels, lang, |units|);
    }

    /** Node k of the path, and the next one. */
    lemma {:induction false} RestingNode(k: nat)
      requires Resting() && k <= |levels|
      ensures PathEnds(levels) && |chains| == |levels| && Stack(chains)[0] == 0
      ensures var id := Stack(chains)[k];
        && id < |nodes|
        && (k < |chains| ==>
              var child := Stack(chains)[k + 1];
              nodes[id].child == child && 0 < child < |nodes| && nodes[child].label_ == levels[k].label_)
        && (levels == [] ==> nodes[id].child == 0)
    {
      hide Physical, StatesOk, RepeatsOk, LevelsReady, Stack, SeenFor;
      SameLength(nodes, chains, levels, target, recycleBin, place, 0);
      PathNodes(nodes, chains, levels, target, recycleBin, place, 0, k);
      RestingPath(levels, lang, |units|);
    }

    /**
      The first loop of insert: follows the key, and then the byte after its end,
      along the path. It stops with an error, behind the end of the key, or where
      the byte is larger than the one on the path.
     */
    method FindBranch(key: Key, following: Byte) returns (outcome: Outcome, id: nat, childId: nat, keyPos: nat)
      requires Resting() && key != []
      ensures outcome == CodeOutcome(levels, key, following)
      ensures outcome == Built ==> keyPos == LeavesPath(levels, key, following, 0)
      ensures outcome == Built && levels == [] ==> keyPos == 0 && id == 0 && childId == 0
      ensures outcome == Built && levels != [] ==>
        || (keyPos == |key| + 1 && MeetsPath(levels, key) && levels[|key|].label_ == following)
        || (keyPos < |levels| && keyPos <= |key| && Agree(levels, key, keyPos)
            && levels[keyPos].label_ < Peek(key, following, keyPos)
            && (keyPos == |key| ==> MeetsPath(levels, key))
            && id == Stack(chains)[keyPos] && childId == Stack(chains)[keyPos + 1] && childId != 0)
    {
      hide Resting, Stack, Path, CodeOutcome, WalkOutcome, PathEnds, MeetsPath;
      id, keyPos, childId := 0, 0, 0;
      RestingNode(0);
      while keyPos <= |key|
        invariant keyPos <= |key| ==> Agree(levels, key, keyPos)
        invariant keyPos <= |chains| == |levels| && keyPos <= |key| + 1 && id == Stack(chains)[keyPos]
        invariant LeavesPath(levels, key, following, keyPos) == LeavesPath(levels, key, following, 0)
        invariant keyPos == |key| + 1 ==> Agree(levels, key, |key|) && levels[|key|].label_ == following
        invariant forall i :: 0 <= i < keyPos && i < |key| ==> key[i] != 0
        decreases |key| + 1 - keyPos
      {
        RestingNode(keyPos);
        PathNotOver(levels, key, keyPos);
        childId := nodes[id].child;
        if childId == 0 {
          WalkNothing(key, following);
          return Built, id, childId, keyPos;
        }
        var keyLabel := Peek(key, following, keyPos);
        if keyPos < |key| && keyLabel == 0 {
          WalkNul(levels, key, following, keyPos);
          return Failed(InvalidNull), id, childId, keyPos;
        }
        var unitLabel := nodes[childId].label_;
        if keyLabel < unitLabel {
          WalkStops(levels, key, following, keyPos);
          return Failed(WrongOrder), id, childId, keyPos;
        } else if keyLabel > unitLabel {
          WalkStops(levels, key, following, keyPos);
          return Built, id, childId, keyPos;
        }
        id := childId;
        keyPos := keyPos + 1;
      }
      WalkEnds(levels, key, following);
      outcome := Built;
    }

    /** Gives the terminator at the end of the path its value. */
    method SetValue(id: nat, value: nat, key: Key)
      requires Consistent(0) && target == 0 && id == Top(chains) && value < MAX_VALUES
      requires levels != [] && Path(levels) == Terminated(key)
      requires SeenFor(Path(levels), Meaning(levels, value, lang))
      modifies this`nodes, this`target
      ensures Resting() && target == value && LastOf(levels) == key
    {
      hide Physical, StatesOk, RepeatsOk, LevelsReady, Stack, SeenFor, Path, Meaning;
      SetTarget(nodes, chains, levels, target, recycleBin, place, 0, value);
      PathLength(levels);
      LastOfTerminated(levels, key);
      nodes := nodes[id := nodes[id].(child := value)];
      target := value;
    }

    /** The first key of all. */
    method InsertFirst(key: Key, value: nat)
      requires Resting() && levels == [] && NulFreeKey(key) && value < MAX_VALUES
      modifies this`nodes, this`recycleBin, this`nodeStack
      modifies this`chains, this`levels, this`place, this`target, this`repeats
      ensures Resting() && levels != [] && LastOf(levels) == key && repeats == old(repeats)
      ensures Contents() == map[key := value] && levels == Fresh(Terminated(key)) && target == value
    {
      hide Physical, Graph, TableReady, Minimal, RepeatsOk, LevelsReady, BitVector.Valid, Stack, Fresh, Meaning, LastOf;
      hide SeenOk;
      NoKeysYet(lang, target, key);
      NonemptyStates(units, labels, groups, lang);
      SeenFirst(seen, lang, added, isIntersections.bits, key, value);
      hide Path;
      RootIsTop(nodes, chains, levels, target, recycleBin, place, 0);
      var id := PushSuffix(0, key, 0);
      FirstLevels(levels, key);
      FirstKeyMeaning(key, value, lang);
      SetValue(id, value, key);
    }

    /** Marks the head of level keyPos, which gets a sibling, and freezes what is below it. */
    method CloseBelow(start: nat, childId: nat, ghost keyPos: nat)
      requires Resting() && keyPos < |levels| && 0 < |table| && FlushTo(Now(), levels, target, keyPos + 1).Froze?
      requires |chains| == |levels| && start == Stack(chains)[keyPos] && childId == Stack(chains)[keyPos + 1]
      modifies this, isIntersections
      ensures chains != [] && Core(Top(chains)) && nodeStack + [Top(chains)] == Stack(chains)
      ensures start == Top(chains[..|chains| - 1]) && repeats == old(repeats)
      ensures levels != [] && levels == old(levels)[..keyPos + 1] && LevelsOk(levels, lang)
      ensures Flushed(old(levels), old(target), old(lang), levels, target, lang)
      ensures ArcOk(Arc(levels[|levels| - 1].label_, target), lang, |units|)
      ensures SeenFor(Path(levels), old(Contents()))
      ensures FlushTo(old(Now()), old(levels), old(target), keyPos + 1) == Froze(Now(), target)
    {
      hide Physical, StatesOk, RepeatsOk, Stack, ArcOk, Flushed, LevelsReady, LevelsOk, SeenFor, Path, Meaning;
      hide FlushTo, Now;
      MarkLevel(nodes, chains, levels, target, recycleBin, place, keyPos);
      OpenTerminator(levels, target, lang, |units|);
      nodes := nodes[childId := nodes[childId].(hasSibling := true)];
      Flush(childId, keyPos + 1, childId);
      ReadyLevels(levels, lang, |units|);
      AfterFlush(chains, nodeStack, childId, start, keyPos);
    }

    /** The second loop of insert, from a level that is marked and frozen below. */
    method PushBranch(start: nat, key: Key, keyPos: nat) returns (id: nat)
      requires chains != [] && Core(Top(chains)) && nodeStack + [Top(chains)] == Stack(chains)
      requires |levels| == keyPos + 1 && keyPos <= |key| && NulFreeKey(key)
      requires start == Top(chains[..|chains| - 1]) && LabelBefore(levels[keyPos].label_, KeyByte(key, keyPos))
      requires ArcOk(Arc(levels[keyPos].label_, target), lang, |units|)
      modifies this`nodes, this`recycleBin, this`nodeStack
      modifies this`chains, this`levels, this`place, this`target, this`repeats
      ensures Consistent(0) && target == 0 && id == Top(chains)
      ensures repeats == old(repeats) + if keyPos == |key| then 1 else 0
      ensures levels == old(levels)[..keyPos] + [Level(Group(old(levels)[keyPos], old(target)), KeyByte(key, keyPos))]
        + Fresh(Terminated(key)[keyPos + 1..])
    {
      hide Core, Stack, Fresh, ArcOk, KeyByte, NulFreeKey, Group, Terminated, Top;
      KeyByteZero(key, keyPos);
      id := PushNext(start, KeyByte(key, keyPos));
      id := PushSuffix(id, key, keyPos + 1);
    }

    /**
      A key that leaves the path at level keyPos with a larger byte, or the last key
      again, which leaves it at its terminator.
     */
    method InsertBranch(key: Key, value: nat, start: nat, childId: nat, keyPos: nat)
      requires Resting() && NulFreeKey(key) && value < MAX_VALUES
      requires keyPos < |levels| && keyPos <= |key| && Agree(levels, key, keyPos)
      requires LabelBefore(levels[keyPos].label_, KeyByte(key, keyPos))
      requires 0 < |table| && InsertAt(Sketch(), key, value, keyPos).Some?
      requires |chains| == |levels| && start == Stack(chains)[keyPos] && childId == Stack(chains)[keyPos + 1]
      modifies this, isIntersections
      ensures Resting() && levels != [] && LastOf(levels) == key
      ensures Contents() == old(Contents())[key := value]
      ensures key in old(Contents()) <==> keyPos == |key|
      ensures InsertAt(old(Sketch()), key, value, keyPos) == Some(Sketch())
      ensures repeats == old(repeats) + if keyPos == |key| then 1 else 0
    {
      hide Core, LevelsReady, Stack, Fresh, Path, Meaning, LastOf, ArcOk, KeyByte, NulFreeKey, Agree, Flushed, LevelsOk;
      hide SeenOk, FlushTo, InsertAt, Group, Now, Terminated;
      ghost var levels0, target0, lang0, sketch0 := levels, target, lang, Sketch();
      AtMeans(sketch0, key, value, keyPos);
      KeyByteZero(key, keyPos);
      RestingLevels();
      CloseBelow(start, childId, keyPos);
      ghost var lower, target1, lang1, store1 := levels, target, lang, Now();
      BranchFacts(levels0, lower, key, keyPos);
      var id := PushBranch(start, key, keyPos);
      BranchedMeaning(levels0, target0, lang0, lower, target1, lang1, levels, key, keyPos, value);
      InsertIs(sketch0, key, value, keyPos, store1, target1, levels);
      SeenBranch(levels0, lower, key, keyPos, seen, old(Contents()), lang, added, isIntersections.bits, value);
      SetValue(id, value, key);
    }

    /**
      insert. `following` is the byte after the key's end. An error, the last key
      again in front of a zero byte, and a key dropped out of order leave everything as
      it was; in front of any other byte the last key gets the new value. The call
      returns wherever InsertInto has a result, and leaves the states, the table and the
      path as that result has them.
     */
    method Insert(key: Key, following: Byte, value: int) returns (outcome: Outcome)
      requires Resting() && value < MAX_VALUES
      requires value >= 0 && key != [] && CodeOutcome(levels, key, following) == Built ==>
        Insertable(levels, key, following) && InsertInto(Sketch(), key, following, value).Some?
      modifies this, isIntersections
      ensures outcome == (
        if value < 0 then Failed(NegativeValue)
        else if key == [] then Failed(ZeroLength)
        else CodeOutcome(old(levels), key, following))
      ensures Resting()
      ensures outcome == Built ==> InsertInto(old(Sketch()), key, following, value) == Some(Sketch())
      ensures outcome.Failed? || SlipsOrder(old(levels), key, following) ==>
        Contents() == old(Contents()) && Sketch() == old(Sketch()) && repeats == old(repeats)
      ensures outcome == Built && !SlipsOrder(old(levels), key, following) ==>
        && levels != [] && LastOf(levels) == key
        && (key in old(Contents()) <==> old(levels) != [] && LastOf(old(levels)) == key)
        && Contents() == (if key in old(Contents()) && !TakenAgain(old(levels), key, following)
                          then old(Contents()) else old(Contents())[key := value])
        && repeats == old(repeats) + if TakenAgain(old(levels), key, following) then 1 else 0
    {
      hide Physical, StatesOk, RepeatsOk, LevelsReady, Stack, Path, Meaning, SeenFor;
      hide CodeOutcome, NulFreeKey, LastOf, PathEnds, MeetsPath, InsertAt, LeavesPath, Fresh;
      if value < 0 {
        return Failed(NegativeValue);
      } else if |key| == 0 {
        return Failed(ZeroLength);
      }
      SameLength(nodes, chains, levels, target, recycleBin, place, 0);
      RestingPath(levels, lang, |units|);
      StateFacts();
      var id, childId, keyPos;
      outcome, id, childId, keyPos := FindBranch(key, following);
      if outcome.Failed? {
        return;
      }
      if keyPos > |key| {
        KeyMet(levels, target, lang, |units|, key, following);
        return;
      }
      if childId == 0 {
        NoKeysYet(lang, target, key);
        InsertFirst(key, value);
      } else {
        BranchOrder(levels, key, following, keyPos);
        InsertBranch(key, value, id, childId, keyPos);
      }
    }

    // The finished graph.

    /** The graph is frozen; its root leads to the state that means d. */
    ghost predicate Finished(d: Dict)
      reads this, isIntersections
    {
      && Readable() && Minimal(groups, added)
      && (if d == map[] then Child(0) == 0 else Child(0) in lang && lang[Child(0)] == d)
    }

    /** What a reader of the frozen graph relies on. */
    ghost predicate Readable()
      reads this, isIntersections
    {
      && Graph(units, labels, groups, lang) && groups.Keys == lang.Keys
      && isIntersections.Valid() && isIntersections.Ranked() && |isIntersections.bits| == |units|
    }

    function Child(id: nat): nat
      requires id < |units|
      reads this`units
    {
      UnitChild(units[id])
    }

    function Sibling(id: nat): nat
      requires id < |units|
      reads this`units
    {
      if UnitHasSibling(units[id]) then id + 1 else 0
    }

    function Value(id: nat): nat
      requires id < |units|
      reads this`units
    {
      UnitValue(units[id])
    }

    predicate IsLeaf(id: nat)
      requires id < |labels|
      reads this`labels
    {
      labels[id] == 0
    }

    /** One state for each set of keys that can be left, and those that are left after several strings are marked. */
    ghost predicate Shared(d: Dict)
      reads this`groups, this`lang, isIntersections`bits
    {
      && Minimal(groups, groups.Keys) && AllStrict(groups)
      && forall g :: g in groups ==> SharedState(d, g)
    }

    ghost predicate SharedState(d: Dict, g: nat)
      reads this`lang, isIntersections`bits
    {
      g in lang && g < |isIntersections.bits| && (isIntersections.bits[g] <==> LeftTwice(d, lang[g]))
    }

    /** finish: freezes what is left and counts the shared states. */
    method Finish()
      requires Resting() && 0 < |table| && FlushTo(Now(), levels, target, 0).Froze?
      modifies this, isIntersections
      ensures Finished(old(Contents()))
      ensures old(repeats) == 0 ==> Shared(old(Contents()))
    {
      hide Physical, Graph, TableReady, Minimal, RepeatsOk, LevelsReady, BitVector.Valid, BitVector.Ranked, Stack;
      hide Meaning, Flushed, ArcWord, UnitChild, SeenFor, Shared, FlushTo;
      ghost var levels0, target0, lang0 := levels, target, lang;
      OpenTerminator(levels, target, lang, |units|);
      PathNodes(nodes, chains, levels, target, recycleBin, place, 0, 0);
      FinishedMeaning(levels, target, lang, |units|);
      Flush(0, 0, 0);
      RootWord(nodes, chains, levels, target, recycleBin, place);
      FlushedRoot(levels0, target0, lang0, target, lang);
      SharedStates(old(Contents()));
      RootUnit(units, labels, groups, lang, nodes[0].Word(), nodes[0].label_);
      WriteRoot();
      isIntersections.Build();
    }

    lemma {:induction false} SharedStates(d: Dict)
      requires StatesOk() && RepeatsOk(groups, added, [], repeats) && SeenFor([], d)
      ensures repeats == 0 ==> Shared(d)
    {
      hide Graph, TableReady, Minimal, AllStrict, BitVector.Valid, SeenOk, LeftTwice;
      if repeats == 0 {
        StateFacts();
        forall g | g in groups
          ensures SharedState(d, g)
        {
          MarksAreShared(seen, d, units, labels, groups, lang, added, isIntersections.bits, g);
        }
      }
    }

    /** The root unit is written, and what only the building needed is dropped. */
    method WriteRoot()
      requires 0 < |nodes| && 0 < |units| == |labels|
      modifies this`units, this`labels, this`nodes, this`table, this`nodeStack, this`recycleBin
      ensures units == old(units)[0 := old(nodes[0].Word())] && labels == old(labels)[0 := old(nodes[0].label_)]
    {
      units := units[0 := nodes[0].Word()];
      labels := labels[0 := nodes[0].label_];
      nodes, table, nodeStack, recycleBin := [], [], [], [];
    }
  }

  lemma {:induction false} InitialPath(nodes: seq<DawgNode>)
    requires nodes == [DawgNode(0, 0, 0xFF, false, false)]
    ensures Physical(nodes, [], [], 0, [], map[], 0)
    ensures LevelsReady([], map[], 1)
  {
  }

  lemma {:induction false} InitialGraph(units: seq<nat>, labels: seq<Byte>)
    requires units == [0] && labels == [0]
    ensures Graph(units, labels, map[], map[]) && Minimal(map[], {})
  {
  }

  lemma {:induction false} XorNothing(s: seq<nat>)
    ensures Xor(0, XorAll(s)) == XorAll(s)
    ensures XorAll(s[..0]) == 0
  {
    assert s[..0] == [];
    hide Xor;
    XorCommutes(0, XorAll(s));
    XorZero(XorAll(s));
  }

  lemma {:induction false} XorRest(s: seq<nat>, h: nat)
    ensures Xor(h, XorAll(s[..0])) == h
  {
    hide Xor;
    assert s[..0] == [];
    XorZero(h);
  }

  lemma {:induction false} ChainSizes(nodes: seq<DawgNode>, chain: seq<nat>, arcs: seq<Arc>)
    requires ChainIs(nodes, chain, arcs)
    ensures 0 < |chain| == |arcs|
  {
  }

  lemma {:induction false} ChainEnd(nodes: seq<DawgNode>, chain: seq<nat>, arcs: seq<Arc>, j: nat)
    requires ChainIs(nodes, chain, arcs) && j <= |chain|
    ensures ChainAt(chain, j) == 0 <==> j == 0
  {
    if j > 0 {
      assert ArcNode(nodes, chain, arcs, j - 1);
    }
  }

  lemma {:induction false} StoredSizes(units: seq<nat>, labels: seq<Byte>, groups: map<nat, seq<Arc>>,
                                       lang: map<nat, Dict>, g: nat)
    requires Graph(units, labels, groups, lang) && g in groups
    ensures 0 < g && 0 < |groups[g]| && g + |groups[g]| <= |units| == |labels|
  {
    hide ArcsDict, NulFree, ArcWord;
    assert StateOk(units, labels, groups, lang, g);
  }

  lemma {:induction false} StoredUnit(units: seq<nat>, labels: seq<Byte>, groups: map<nat, seq<Arc>>,
                                      lang: map<nat, Dict>, g: nat, j: nat)
    requires Graph(units, labels, groups, lang) && g in groups && j < |groups[g]|
    ensures 0 < g && g + j < |units| == |labels|
    ensures labels[g + j] == groups[g][j].c
    ensures units[g + j] == ArcWord(groups[g][j], j == 0, j + 1 < |groups[g]|)
    ensures UnitHasSibling(units[g + j]) <==> j + 1 < |groups[g]|
  {
    hide ArcsDict, NulFree, ArcWord, UnitHasSibling;
    assert StateOk(units, labels, groups, lang, g);
    assert UnitAt(units, labels, g, groups[g], j);
    ReadArcWord(groups[g][j], j == 0, j + 1 < |groups[g]|);
  }

  lemma {:induction false} ReverseStart(chain: seq<nat>)
    ensures chain[..|chain|] == chain
  {
  }

  lemma {:induction false} ReverseStep(chain: seq<nat>, j: nat)
    requires 0 < j <= |chain|
    ensures Reverse(chain[..j]) == [chain[j - 1]] + Reverse(chain[..j - 1])
  {
    assert chain[..j][..j - 1] == chain[..j - 1];
  }

  lemma {:induction false} ReverseEnd(chain: seq<nat>)
    ensures Reverse(chain[..0]) == []
  {
  }

  lemma {:induction false} PrefixKept<T>(before: seq<T>, grown: seq<T>, after: seq<T>)
    requires before <= grown && |after| >= |before| && after[..|before|] == grown[..|before|]
    ensures before <= after
  {
  }

  lemma {:induction false} StackInit(chains: seq<seq<nat>>)
    requires chains != []
    ensures Stack(chains)[..|chains|] == Stack(chains[..|chains| - 1])
    ensures Stack(chains[..|chains| - 1])[|chains| - 1] == Top(chains[..|chains| - 1])
  {
  }

  lemma {:induction false} TopArcsOk(levels: seq<Level>, target: nat, lang: map<nat, Dict>, size: nat)
    requires levels != [] && LevelsReady(levels, lang, size)
    requires ArcOk(Arc(levels[|levels| - 1].label_, target), lang, size)
    ensures ArcsOk(Group(levels[|levels| - 1], target), lang, size)
    ensures LevelsReady(levels[..|levels| - 1], lang, size)
  {
    hide ArcOk;
    var l := levels[|levels| - 1];
    assert LevelOk(l, lang) && ClosedReady(l, lang, size);
  }

  lemma {:induction false} LevelsStay(levels: seq<Level>, lang: map<nat, Dict>, lang': map<nat, Dict>,
                                      size: nat, size': nat)
    requires levels != [] && LevelsReady(levels, lang, size) && Grows(lang, lang') && size <= size'
    ensures LevelsReady(levels[..|levels| - 1], lang', size')
  {
    forall i | 0 <= i < |levels| - 1
      ensures ClosedReady(levels[i], lang', size') && LevelOk(levels[i], lang')
    {
      assert ClosedReady(levels[i], lang, size) && LevelOk(levels[i], lang);
      ArcsDictStable(levels[i].closed, lang, lang');
      forall j | 0 <= j < |levels[i].closed|
        ensures ArcOk(levels[i].closed[j], lang', size')
      {
        assert ArcOk(levels[i].closed[j], lang, size);
      }
    }
  }

  lemma {:induction false} SameKeys(units: seq<nat>, labels: seq<Byte>, groups: map<nat, seq<Arc>>,
                                    lang: map<nat, Dict>)
    requires Graph(units, labels, groups, lang)
    ensures groups.Keys == lang.Keys
  {
  }

  lemma {:induction false} BeforeFreeze(nodes: seq<DawgNode>, chains: seq<seq<nat>>, levels: seq<Level>, target: nat,
                                        bin: seq<nat>, place: map<nat, (nat, nat)>, marked: nat, lang: map<nat, Dict>,
                                        size: nat)
    requires Physical(nodes, chains, levels, target, bin, place, marked) && LevelsReady(levels, lang, size)
    requires chains != [] && levels != [] && Top(chains) != marked
    requires ArcOk(Arc(levels[|levels| - 1].label_, target), lang, size)
    ensures |chains| == |levels| && Stack(chains)[|chains|] == Top(chains)
    ensures Stack(chains)[..|chains|] == Stack(chains[..|chains| - 1])
    ensures var chain, arcs := chains[|chains| - 1], Group(levels[|levels| - 1], target);
      ChainIs(nodes, chain, arcs) && Top(chains) == ChainAt(chain, |chain|) && ArcsOk(arcs, lang, size)
  {
    hide Physical, LevelsReady, ArcOk, ChainIs, ArcsOk, Group;
    TopNode(nodes, chains, levels, target, bin, place, marked);
    TopChain(nodes, chains, levels, target, bin, place, marked);
    TopArcsOk(levels, target, lang, size);
    StackInit(chains);
    TopOfChain(chains, nodes, chains[|chains| - 1], Group(levels[|levels| - 1], target));
  }

  lemma {:induction false} TopArcsStay(levels: seq<Level>, target: nat, lang: map<nat, Dict>, size: nat,
                                       lang': map<nat, Dict>)
    requires levels != [] && LevelsReady(levels, lang, size) && Grows(lang, lang')
    requires ArcOk(Arc(levels[|levels| - 1].label_, target), lang, size)
    ensures var arcs := Group(levels[|levels| - 1], target); ArcsDict(arcs, lang') == ArcsDict(arcs, lang)
  {
    hide LevelsReady, ArcOk, ArcsOk, ArcsKnown, ArcsDict, Group;
    var arcs := Group(levels[|levels| - 1], target);
    TopArcsOk(levels, target, lang, size);
    ArcsOkKnown(arcs, lang, size);
    ArcsDictStable(arcs, lang, lang');
  }

  lemma {:induction false} AfterFreeze(levels: seq<Level>, target: nat,
                                       groups: map<nat, seq<Arc>>, added: set<nat>, lang: map<nat, Dict>, size: nat,
                                       groups': map<nat, seq<Arc>>, added': set<nat>, lang': map<nat, Dict>, size': nat,
                                       g: nat, repeats: nat)
    requires levels != [] && LevelsReady(levels, lang, size) && Grows(lang, lang') && size <= size'
    requires ArcOk(Arc(levels[|levels| - 1].label_, target), lang, size)
    requires g in lang' && lang'[g] == ArcsDict(Group(levels[|levels| - 1], target), lang')
    requires RepeatsOk(groups, added, levels, repeats) && added <= groups.Keys
    requires Frozen(groups, added, Group(levels[|levels| - 1], target), g, groups', added')
    ensures LevelsReady(levels[..|levels| - 1], lang', size')
    ensures RepeatsOk(groups', added', levels[..|levels| - 1], repeats)
    ensures Flushed(levels, target, lang, levels[..|levels| - 1], g, lang')
    ensures LevelsOk(levels, lang) && lang'[g] == ArcsDict(Group(levels[|levels| - 1], target), lang)
  {
    hide LevelsOk;
    ReadyLevels(levels, lang, size);
    TopArcsStay(levels, target, lang, size, lang');
    hide LevelsReady, RepeatsOk, Flushed, Grows, ArcsDict, ArcOk, Frozen, Group;
    LevelsStay(levels, lang, lang', size, size');
    RepeatsFreeze(groups, added, levels, repeats, target, g, groups', added');
    FlushedStep(levels, target, lang, lang', g, size);
  }

  lemma {:induction false} TopOfChain(chains: seq<seq<nat>>, nodes: seq<DawgNode>, chain: seq<nat>, arcs: seq<Arc>)
    requires chains != [] && chain == chains[|chains| - 1] && ChainIs(nodes, chain, arcs)
    ensures Top(chains) == ChainAt(chain, |chain|)
  {
  }

  // What flushing keeps.

  /** Flushing shortened the path, kept all frozen states, and kept the meaning. */
  ghost predicate Flushed(levels: seq<Level>, target: nat, lang: map<nat, Dict>,
                          levels': seq<Level>, target': nat, lang': map<nat, Dict>)
  {
    && Grows(lang, lang')
    && (levels == [] ==> levels' == [] && target' == target)
    && (levels' != [] ==> Meaning(levels', target', lang') == Meaning(levels, target, lang))
    && (levels' == [] && levels != [] ==> target' in lang' && lang'[target'] == Meaning(levels, target, lang))
  }

  lemma {:induction false} FlushedNothing(levels: seq<Level>, target: nat, lang: map<nat, Dict>)
    ensures Flushed(levels, target, lang, levels, target, lang)
  {
  }

  lemma {:induction false} MeaningStable(levels: seq<Level>, target: nat, lang: map<nat, Dict>, lang': map<nat, Dict>,
                                         size: nat)
    requires levels != [] && LevelsReady(levels, lang, size) && Grows(lang, lang')
    requires ArcOk(Arc(levels[|levels| - 1].label_, target), lang, size)
    ensures Meaning(levels, target, lang') == Meaning(levels, target, lang)
  {
    hide Total, ArcsDict, ArcOk;
    var n := |levels|;
    TopArcsOk(levels, target, lang, size);
    var arcs := Group(levels[n - 1], target);
    ArcsOkKnown(arcs, lang, size);
    ArcsDictStable(arcs, lang, lang');
    TotalStable(levels[..n - 1], ArcsDict(arcs, lang), lang, lang');
  }

  lemma {:induction false} FlushedStep(levels: seq<Level>, target: nat, lang: map<nat, Dict>,
                                       lang': map<nat, Dict>, g: nat, size: nat)
    requires levels != [] && LevelsReady(levels, lang, size) && Grows(lang, lang')
    requires ArcOk(Arc(levels[|levels| - 1].label_, target), lang, size)
    requires g in lang' && lang'[g] == ArcsDict(Group(levels[|levels| - 1], target), lang')
    ensures Flushed(levels, target, lang, levels[..|levels| - 1], g, lang')
  {
    hide ArcsDict, ArcOk;
    MeaningStable(levels, target, lang, lang', size);
    var n := |levels|;
    if n >= 2 {
      FreezeMeaning(levels, target, lang', g);
    } else {
      assert levels[..0] == [];
    }
  }

  lemma {:induction false} FlushedContents(levels: seq<Level>, target: nat, lang: map<nat, Dict>,
                                           levels': seq<Level>, target': nat, lang': map<nat, Dict>)
    requires Flushed(levels, target, lang, levels', target', lang') && levels' != []
    ensures Meaning(levels', target', lang') == Meaning(levels, target, lang)
  {
  }

  lemma {:induction false} FlushedTwice(levels: seq<Level>, target: nat, lang: map<nat, Dict>,
                                        levels1: seq<Level>, target1: nat, lang1: map<nat, Dict>,
                                        levels2: seq<Level>, target2: nat, lang2: map<nat, Dict>)
    requires Flushed(levels, target, lang, levels1, target1, lang1) && levels1 != []
    requires Flushed(levels1, target1, lang1, levels2, target2, lang2)
    ensures Flushed(levels, target, lang, levels2, target2, lang2)
  {
    hide Meaning;
  }

  lemma {:induction false} FrozenMeaning(units: seq<nat>, labels: seq<Byte>, groups: map<nat, seq<Arc>>,
                                         lang: map<nat, Dict>, g: nat)
    requires Graph(units, labels, groups, lang) && g in groups
    ensures 0 < g < |units| && g in lang && lang[g] == ArcsDict(groups[g], lang)
  {
    hide ArcsDict;
    assert StateOk(units, labels, groups, lang, g);
  }

  /** The arc above a frozen state is open, is not labelled 0, and leads to that state. */
  lemma {:induction false} NextOpen(levels: seq<Level>, n: nat, lang0: map<nat, Dict>, size0: nat,
                                    lang: map<nat, Dict>, target: nat, size: nat)
    requires LevelsReady(levels, lang0, size0) && 0 < n < |levels|
    requires target in lang && target < size
    ensures ArcOk(Arc(levels[n - 1].label_, target), lang, size)
  {
  }

  // The stack.

  lemma {:induction false} SameLength(nodes: seq<DawgNode>, chains: seq<seq<nat>>, levels: seq<Level>, target: nat,
                                      bin: seq<nat>, place: map<nat, (nat, nat)>, marked: nat)
    requires Physical(nodes, chains, levels, target, bin, place, marked)
    ensures |chains| == |levels|
  {
  }

  /** Only the entry at `keep` is the node there; the entries above it are other nodes. */
  lemma {:induction false} StackDistinct(nodes: seq<DawgNode>, chains: seq<seq<nat>>, levels: seq<Level>, target: nat,
                                         bin: seq<nat>, place: map<nat, (nat, nat)>, marked: nat, keep: nat)
    requires Physical(nodes, chains, levels, target, bin, place, marked) && keep <= |chains|
    ensures |Stack(chains)| == |chains| + 1
    ensures Stack(chains)[|chains|] == Top(chains)
    ensures keep < |chains| ==> Top(chains) != Stack(chains)[keep] && Top(chains) != 0
  {
    hide BinOk, ChainOk;
    TopNode(nodes, chains, levels, target, bin, place, marked);
    if keep < |chains| {
      InChain(nodes, chains, levels, target, place, marked, |chains| - 1);
      if keep > 0 {
        InChain(nodes, chains, levels, target, place, marked, keep - 1);
      }
    }
  }

  lemma {:induction false} StackShorter(chains: seq<seq<nat>>, keep: nat)
    requires keep < |chains|
    ensures Stack(chains[..|chains| - 1])[keep] == Stack(chains)[keep]
  {
    StackInit(chains);
  }

  lemma {:induction false} StackLast(chains: seq<seq<nat>>)
    ensures Stack(chains)[..|chains|] + [Stack(chains)[|chains|]] == Stack(chains)
  {
  }

  // Pushing nodes.

  /** The nodes after a new first child for label c was put under node id. */
  ghost predicate PushedFrom(nodes1: seq<DawgNode>, id: nat, c: Byte, nodes': seq<DawgNode>, n: nat) {
    && id < |nodes1| && n < |nodes1| && id != n
    && var below := nodes1[id].child;
       var new_ := nodes1[n := DawgNode(0, below, c, below == 0, false)];
       nodes' == new_[id := new_[id].(child := n)]
  }

  ghost predicate Pushed(nodes: seq<DawgNode>, bin: seq<nat>, place: map<nat, (nat, nat)>, id: nat, c: Byte,
                         nodes': seq<DawgNode>, bin': seq<nat>, n: nat)
  {
    exists nodes1 :: Allocated(nodes, bin, place, nodes1, bin', n) && PushedFrom(nodes1, id, c, nodes', n)
  }

  lemma {:induction false} BeforePush(nodes: seq<DawgNode>, chains: seq<seq<nat>>, levels: seq<Level>, target: nat,
                                      bin: seq<nat>, place: map<nat, (nat, nat)>, marked: nat)
    requires Physical(nodes, chains, levels, target, bin, place, marked)
    ensures |chains| == |levels| && BinOk(nodes, bin, place) && 0 < |nodes|
    ensures Top(chains) < |nodes| && (Top(chains) == 0 || Top(chains) in place)
    ensures chains != [] ==>
      var h := Top(chains[..|chains| - 1]); h < |nodes| && (h == 0 || h in place)
  {
    hide ChainOk;
    if chains != [] {
      var k := |chains| - 1;
      InChain(nodes, chains, levels, target, place, marked, k);
      if k > 0 {
        InChain(nodes, chains, levels, target, place, marked, k - 1);
      }
    }
  }

  lemma {:induction false} FreshPushed(nodes: seq<DawgNode>, chains: seq<seq<nat>>, levels: seq<Level>,
                                       bin: seq<nat>, place: map<nat, (nat, nat)>,
                                       nodes': seq<DawgNode>, bin': seq<nat>, n: nat, c: Byte)
    requires Physical(nodes, chains, levels, 0, bin, place, 0)
    requires Pushed(nodes, bin, place, Top(chains), c, nodes', bin', n)
    ensures Physical(nodes', chains + [[n]], levels + [Level([], c)], 0, bin', place[n := (|chains|, 0)], 0)
  {
    hide Physical, Allocated;
    var nodes1 :| Allocated(nodes, bin, place, nodes1, bin', n) && PushedFrom(nodes1, Top(chains), c, nodes', n);
    TopNode(nodes, chains, levels, 0, bin, place, 0);
    BeforePush(nodes, chains, levels, 0, bin, place, 0);
    AllocatedKeeps(nodes, bin, place, nodes1, bin', n, Top(chains));
    PushFresh(nodes, chains, levels, bin, place, nodes1, bin', n, c);
  }

  lemma {:induction false} AllocatedKeeps(nodes: seq<DawgNode>, bin: seq<nat>, place: map<nat, (nat, nat)>,
                                          nodes': seq<DawgNode>, bin': seq<nat>, n: nat, m: nat)
    requires Allocated(nodes, bin, place, nodes', bin', n) && m < |nodes| && (m == 0 || m in place)
    ensures m < |nodes'| && nodes'[m] == nodes[m] && m != n
  {
  }

  /** The node that has the last level's head as its child. */
  lemma {:induction false} ParentNode(nodes: seq<DawgNode>, chains: seq<seq<nat>>, levels: seq<Level>, target: nat,
                                      bin: seq<nat>, place: map<nat, (nat, nat)>, marked: nat)
    requires Physical(nodes, chains, levels, target, bin, place, marked) && chains != []
    ensures var h := Top(chains[..|chains| - 1]);
      h < |nodes| && nodes[h].child == Top(chains) && Top(chains) != 0
  {
    hide ChainOk, BinOk;
    var k := |chains| - 1;
    InChain(nodes, chains, levels, target, place, marked, k);
    if k > 0 {
      InChain(nodes, chains, levels, target, place, marked, k - 1);
    }
  }

  lemma {:induction false} SiblingPushed(nodes: seq<DawgNode>, chains: seq<seq<nat>>, levels: seq<Level>, target: nat,
                                         bin: seq<nat>, place: map<nat, (nat, nat)>,
                                         nodes': seq<DawgNode>, bin': seq<nat>, n: nat, c: Byte)
    requires chains != [] && |levels| == |chains|
    requires Physical(nodes, chains, levels, target, bin, place, Top(chains))
    requires Pushed(nodes, bin, place, Top(chains[..|chains| - 1]), c, nodes', bin', n)
    ensures var k := |chains| - 1;
      Physical(nodes', chains[..k] + [chains[k] + [n]], levels[..k] + [Level(Group(levels[k], target), c)], 0, bin',
               place[n := (k, |chains[k]|)], 0)
  {
    hide Physical, Allocated, Group;
    var h := Top(chains[..|chains| - 1]);
    var nodes1 :| Allocated(nodes, bin, place, nodes1, bin', n) && PushedFrom(nodes1, h, c, nodes', n);
    ParentNode(nodes, chains, levels, target, bin, place, Top(chains));
    BeforePush(nodes, chains, levels, target, bin, place, Top(chains));
    AllocatedKeeps(nodes, bin, place, nodes1, bin', n, h);
    PushSibling(nodes, chains, levels, target, bin, place, nodes1, bin', n, c);
  }

  lemma {:induction false} FreshLevelReady(levels: seq<Level>, c: Byte, lang: map<nat, Dict>, size: nat)
    requires LevelsReady(levels, lang, size) && (levels != [] ==> levels[|levels| - 1].label_ != 0)
    ensures LevelsReady(levels + [Level([], c)], lang, size)
  {
    var all := levels + [Level([], c)];
    forall i | 0 <= i < |all|
      ensures LevelOk(all[i], lang) && ClosedReady(all[i], lang, size)
    {
      if i < |levels| {
        assert LevelOk(levels[i], lang) && ClosedReady(levels[i], lang, size);
      }
    }
  }

  lemma {:induction false} SiblingLevelReady(levels: seq<Level>, target: nat, c: Byte, lang: map<nat, Dict>, size: nat)
    requires levels != [] && LevelsReady(levels, lang, size) && LabelBefore(levels[|levels| - 1].label_, c)
    requires ArcOk(Arc(levels[|levels| - 1].label_, target), lang, size)
    ensures LevelsReady(levels[..|levels| - 1] + [Level(Group(levels[|levels| - 1], target), c)], lang, size)
  {
    hide ArcOk;
    var k := |levels| - 1;
    var branch := Level(Group(levels[k], target), c);
    var all := levels[..k] + [branch];
    TopArcsOk(levels, target, lang, size);
    ArcsOkKnown(branch.closed, lang, size);
    assert LabelBefore(branch.closed[|branch.closed| - 1].c, c);
    forall i | 0 <= i < |all|
      ensures LevelOk(all[i], lang) && ClosedReady(all[i], lang, size)
    {
      if i < k {
        assert LevelOk(levels[i], lang) && ClosedReady(levels[i], lang, size);
      }
    }
  }

  lemma {:induction false} StackReplace(chains: seq<seq<nat>>, chain: seq<nat>)
    requires chains != []
    ensures Stack(chains[..|chains| - 1] + [chain]) == Stack(chains)[..|chains|] + [Head(chain)]
  {
    StackInit(chains);
    StackAppend(chains[..|chains| - 1], chain);
  }

  lemma {:induction false} PathNodes(nodes: seq<DawgNode>, chains: seq<seq<nat>>, levels: seq<Level>, target: nat,
                                     bin: seq<nat>, place: map<nat, (nat, nat)>, marked: nat, k: nat)
    requires Physical(nodes, chains, levels, target, bin, place, marked) && k <= |chains|
    ensures |chains| == |levels| && |Stack(chains)| == |chains| + 1 && Stack(chains)[0] == 0
    ensures var id := Stack(chains)[k];
      && id < |nodes|
      && (k < |chains| ==>
            var child := Stack(chains)[k + 1];
            nodes[id].child == child && 0 < child < |nodes| && nodes[child].label_ == levels[k].label_)
      && (k == |chains| ==> nodes[id].child == target)
  {
    hide BinOk, ChainOk;
    if k > 0 {
      InChain(nodes, chains, levels, target, place, marked, k - 1);
    }
    if k < |chains| {
      InChain(nodes, chains, levels, target, place, marked, k);
    }
  }

  lemma {:induction false} FreshNothing(all: Key, from: nat)
    requires from <= |all|
    ensures Fresh(all[from..from]) == []
  {
  }

  lemma {:induction false} FreshMore(all: Key, from: nat, to: nat)
    requires from <= to < |all|
    ensures Fresh(all[from..to + 1]) == Fresh(all[from..to]) + [Level([], all[to])]
  {
    assert all[from..to + 1] == all[from..to] + [all[to]];
    FreshAppend(all[from..to], all[to]);
  }

  lemma {:induction false} RootIsTop(nodes: seq<DawgNode>, chains: seq<seq<nat>>, levels: seq<Level>, target: nat,
                                     bin: seq<nat>, place: map<nat, (nat, nat)>, marked: nat)
    requires Physical(nodes, chains, levels, target, bin, place, marked) && levels == []
    ensures Top(chains) == 0
  {
  }

  lemma {:induction false} FirstLevels(levels: seq<Level>, key: Key)
    requires levels == [] + Fresh(Terminated(key)[0..])
    ensures levels == Fresh(key + [0]) && levels != [] && Path(levels) == Terminated(key)
  {
    assert Terminated(key)[0..] == key + [0];
    PathLength(levels);
  }

  lemma {:induction false} NoKeysYet(lang: map<nat, Dict>, target: nat, key: Key)
    ensures Meaning([], target, lang) == map[] && !MeetsPath([], key)
  {
  }

  /** The key and the byte after its end are on the path: it is the last key, or it is dropped. */
  lemma {:induction false} KeyMet(levels: seq<Level>, target: nat, lang: map<nat, Dict>, size: nat, key: Key,
                                  following: Byte)
    requires MeetsPath(levels, key) && levels[|key|].label_ == following
    requires LevelsReady(levels, lang, size) && PathEnds(levels)
    ensures !TakenAgain(levels, key, following)
    ensures following != 0 ==> SlipsOrder(levels, key, following)
    ensures following == 0 ==> LastOf(levels) == key && key in Meaning(levels, target, lang)
  {
    hide NulOnPath, Meaning, Path;
    if following == 0 {
      MetNulFree(levels, key);
      WalkMeets(levels, key);
      LastKeyMeaning(levels, target, lang);
    }
  }

  lemma {:induction false} RestingPath(levels: seq<Level>, lang: map<nat, Dict>, size: nat)
    requires LevelsReady(levels, lang, size) && (levels != [] ==> levels[|levels| - 1].label_ == 0)
    ensures PathEnds(levels)
  {
  }

  lemma {:induction false} MarkLevel(nodes: seq<DawgNode>, chains: seq<seq<nat>>, levels: seq<Level>, target: nat,
                                     bin: seq<nat>, place: map<nat, (nat, nat)>, k: nat)
    requires Physical(nodes, chains, levels, target, bin, place, 0) && k < |chains|
    ensures var h := Stack(chains)[k + 1];
      && 0 < h < |nodes|
      && Physical(nodes[h := nodes[h].(hasSibling := true)], chains, levels, target, bin, place, h)
  {
    MarkHead(nodes, chains, levels, target, bin, place, k);
  }

  lemma {:induction false} OpenTerminator(levels: seq<Level>, target: nat, lang: map<nat, Dict>, size: nat)
    requires levels != [] ==> levels[|levels| - 1].label_ == 0 && target < MAX_VALUES
    ensures levels != [] ==> ArcOk(Arc(levels[|levels| - 1].label_, target), lang, size)
  {
  }

  /** After flushing, the marked node is on top and `start` is the node above it. */
  lemma {:induction false} AfterFlush(chains: seq<seq<nat>>, nodeStack: seq<nat>, childId: nat, start: nat, k: nat)
    requires |chains| == k + 1 && nodeStack + [childId] == Stack(chains) && |nodeStack| == k + 1 && nodeStack[k] == start
    ensures Top(chains) == childId && Top(chains[..k]) == start
  {
    StackInit(chains);
    assert Stack(chains)[k + 1] == childId;
    assert Stack(chains)[..k + 1] == nodeStack;
  }

  lemma {:induction false} BranchingPath(levels: seq<Level>, lower: seq<Level>, key: Key, k: nat)
    requires k < |levels| && lower == levels[..k + 1] && k <= |key| && Agree(levels, key, k)
    requires LabelBefore(levels[k].label_, KeyByte(key, k))
    ensures Branches(Path(lower), key, k)
  {
    PathLength(lower);
  }

  lemma {:induction false} SeenBranch(levels: seq<Level>, lower: seq<Level>, key: Key, k: nat, seen: map<Key, nat>,
                                      d: Dict, lang: map<nat, Dict>, added: set<nat>, bits: seq<bool>, v: nat)
    requires k < |levels| && lower == levels[..k + 1] && k <= |key| && Agree(levels, key, k)
    requires LabelBefore(levels[k].label_, KeyByte(key, k)) && NulFreeKey(key)
    requires SeenOk(seen, Path(lower), d, lang, added, bits)
    ensures SeenOk(seen, Terminated(key), d[key := v], lang, added, bits)
  {
    BranchingPath(levels, lower, key, k);
    hide SeenOk, Branches;
    SeenInsert(seen, Path(lower), d, lang, added, bits, key, k, v);
  }

  lemma {:induction false} NonemptyStates(units: seq<nat>, labels: seq<Byte>, groups: map<nat, seq<Arc>>,
                                          lang: map<nat, Dict>)
    requires Graph(units, labels, groups, lang)
    ensures forall g :: g in lang ==> lang[g] != map[]
  {
    hide StateAt, ArcsOk, NulFree;
    forall g | g in lang
      ensures lang[g] != map[]
    {
      assert StateOk(units, labels, groups, lang, g);
    }
  }

  lemma {:induction false} BranchFacts(levels: seq<Level>, lower: seq<Level>, key: Key, k: nat)
    requires k < |levels| && lower == levels[..k + 1]
    ensures lower != [] && lower[|lower| - 1] == levels[k]
  {
  }

  /** The levels after a branch spell the key, and mean what was there and the key. */
  lemma {:induction false} InsertedMeaning(levels: seq<Level>, target: nat, lang: map<nat, Dict>,
                                           lower: seq<Level>, target1: nat, lang1: map<nat, Dict>,
                                           after: seq<Level>, key: Key, k: nat, value: nat)
    requires k < |levels| && k < |key| && Agree(levels, key, k) && levels[k].label_ < key[k]
    requires lower == levels[..k + 1] && Flushed(levels, target, lang, lower, target1, lang1)
    requires LevelsOk(lower, lang1)
    requires after == lower[..k] + [Level(Group(lower[k], target1), key[k])] + Fresh(Terminated(key)[k + 1..])
    ensures after != [] && Path(after) == Terminated(key)
    ensures key !in Meaning(levels, target, lang)
    ensures Meaning(after, value, lang1) == Meaning(levels, target, lang)[key := value]
  {
    hide Meaning, Group, Fresh;
    var s := key[k + 1..];
    InsertedPath(lower, Group(lower[k], target1), after, key, k);
    BranchMeaning(lower, target1, key[k], s, value, lang1);
    BranchIsNew(lower, target1, key[k], s, lang1);
    hide Path, Agree, Terminated;
  }

  /** The last key again: a second terminator with the new value. */
  lemma {:induction false} RepeatedMeaning(levels: seq<Level>, target: nat, lang: map<nat, Dict>,
                                           lower: seq<Level>, target1: nat, lang1: map<nat, Dict>,
                                           after: seq<Level>, key: Key, value: nat)
    requires |key| < |levels| && Agree(levels, key, |key|) && levels[|key|].label_ == 0
    requires LevelsOk(levels, lang) && PathEnds(levels) && NulFreeKey(key)
    requires lower == levels[..|key| + 1] && Flushed(levels, target, lang, lower, target1, lang1)
    requires after == lower[..|key|] + [Level(Group(lower[|key|], target1), 0)] + Fresh(Terminated(key)[|key| + 1..])
    ensures after != [] && Path(after) == Terminated(key)
    ensures key in Meaning(levels, target, lang)
    ensures Meaning(after, value, lang1) == Meaning(levels, target, lang)[key := value]
  {
    hide Meaning, Group, LevelsOk, NulOnPath;
    var k := |key|;
    assert |levels| == k + 1 && lower == levels;
    assert Fresh(Terminated(key)[k + 1..]) == [];
    assert after == lower[..k] + [Level(Group(lower[k], target1), 0)];
    WalkMeets(levels, key);
    PathLength(after);
    LastKeyMeaning(levels, target, lang);
    RepeatMeaning(lower, target1, value, lang1);
  }

  /** The levels after a branch spell the key, and mean what was there with the key's new value. */
  lemma {:induction false} BranchedMeaning(levels: seq<Level>, target: nat, lang: map<nat, Dict>,
                                           lower: seq<Level>, target1: nat, lang1: map<nat, Dict>,
                                           after: seq<Level>, key: Key, k: nat, value: nat)
    requires k < |levels| && k <= |key| && Agree(levels, key, k) && LabelBefore(levels[k].label_, KeyByte(key, k))
    requires LevelsOk(levels, lang) && PathEnds(levels) && NulFreeKey(key)
    requires lower == levels[..k + 1] && Flushed(levels, target, lang, lower, target1, lang1)
    requires LevelsOk(lower, lang1)
    requires after == lower[..k] + [Level(Group(lower[k], target1), KeyByte(key, k))] + Fresh(Terminated(key)[k + 1..])
    ensures after != [] && Path(after) == Terminated(key)
    ensures key in Meaning(levels, target, lang) <==> k == |key|
    ensures Meaning(after, value, lang1) == Meaning(levels, target, lang)[key := value]
  {
    hide Meaning, Group, LevelsOk, Path, Fresh, Flushed, PathEnds, Agree;
    if k < |key| {
      InsertedMeaning(levels, target, lang, lower, target1, lang1, after, key, k, value);
    } else {
      RepeatedMeaning(levels, target, lang, lower, target1, lang1, after, key, value);
    }
  }

  lemma {:induction false} InsertedPath(lower: seq<Level>, group: seq<Arc>, after: seq<Level>, key: Key, k: nat)
    requires k < |key| && |lower| == k + 1 && Agree(lower, key, k)
    requires after == lower[..k] + [Level(group, key[k])] + Fresh(Terminated(key)[k + 1..])
    ensures Terminated(key)[k + 1..] == key[k + 1..] + [0]
    ensures after != [] && Path(after) == Terminated(key)
    ensures key == Path(lower[..k]) + [key[k]] + key[k + 1..]
  {
    PathLength(lower[..k]);
    PathLength(after);
  }

  lemma {:induction false} ReadyLevels(levels: seq<Level>, lang: map<nat, Dict>, size: nat)
    requires LevelsReady(levels, lang, size)
    ensures LevelsOk(levels, lang)
  {
  }

  lemma {:induction false} StackPrefix(chains: seq<seq<nat>>, k: nat)
    requires k <= |chains|
    ensures k < |Stack(chains)|
    ensures k > 0 ==> |Stack(chains)| == |chains| + 1
    ensures Stack(chains)[..k] == Stack(chains[..k])[..k]
    decreases |chains|
  {
    if k < |chains| {
      StackInit(chains);
      assert chains[..|chains| - 1][..k] == chains[..k];
      StackPrefix(chains[..|chains| - 1], k);
    } else {
      assert chains[..k] == chains;
    }
  }

  lemma {:induction false} FinishedMeaning(levels: seq<Level>, target: nat, lang: map<nat, Dict>, size: nat)
    requires LevelsReady(levels, lang, size)
    requires levels != [] ==> levels[|levels| - 1].label_ == 0
    ensures Meaning(levels, target, lang) == map[] <==> levels == []
  {
    if levels != [] {
      LastKeyMeaning(levels, target, lang);
    }
  }

  lemma {:induction false} RootWord(nodes: seq<DawgNode>, chains: seq<seq<nat>>, levels: seq<Level>, target: nat,
                                    bin: seq<nat>, place: map<nat, (nat, nat)>)
    requires Physical(nodes, chains, levels, target, bin, place, 0) && levels == []
    ensures 0 < |nodes| && UnitChild(nodes[0].Word()) == target
  {
    ReadArcWord(Arc(0xFF, target), false, false);
  }

  lemma {:induction false} FlushedRoot(levels: seq<Level>, target: nat, lang: map<nat, Dict>,
                                       target': nat, lang': map<nat, Dict>)
    requires Flushed(levels, target, lang, [], target', lang')
    ensures levels == [] ==> target' == target
    ensures levels != [] ==> target' in lang' && lang'[target'] == Meaning(levels, target, lang)
  {
  }

  /** The root unit belongs to no state. */
  lemma {:induction false} RootUnit(units: seq<nat>, labels: seq<Byte>, groups: map<nat, seq<Arc>>,
                                    lang: map<nat, Dict>, word: nat, c: Byte)
    requires Graph(units, labels, groups, lang)
    ensures 0 < |units| == |labels|
    ensures Graph(units[0 := word], labels[0 := c], groups, lang) && groups.Keys == lang.Keys
  {
    hide ArcsDict, ArcWord, NulFree, ArcsOk, UnitIsState;
    var units', labels' := units[0 := word], labels[0 := c];
    forall g | g in groups
      ensures StateOk(units', labels', groups, lang, g)
    {
      assert StateOk(units, labels, groups, lang, g);
      forall j | 0 <= j < |groups[g]|
        ensures UnitAt(units', labels', g, groups[g], j)
      {
        assert UnitAt(units, labels, g, groups[g], j);
      }
    }
    forall i | 0 < i < |units'|
      ensures HeadUnitOk(units', labels', groups, i)
    {
      assert HeadUnitOk(units, labels, groups, i);
    }
  }
}
