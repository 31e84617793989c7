/**
  The nodes of the part of a word graph that can still grow.

  Each level of the path has a chain of nodes, linked from the newest sibling,
  which is on the stack, to the oldest one. Freed nodes wait in a recycle bin.
 */
module DawgPaths {
  import opened Dictionary
  import opened DawgLevels
  import opened DawgGraphs

  datatype DawgNode = DawgNode(child: nat, sibling: nat, label_: Byte, isState: bool, hasSibling: bool) {
    function Word(): nat {
      ArcWord(Arc(label_, child), isState, hasSibling)
    }
  }

  const NEW_NODE := DawgNode(0, 0, 0, false, false)

  function Head(chain: seq<nat>): nat {
    if chain == [] then 0 else chain[|chain| - 1]
  }

  /** What the open arc of level i leads to: the next node of the path, or `target` at its end. */
  function OpenChild(chains: seq<seq<nat>>, target: nat, i: nat): nat {
    if i + 1 < |chains| then Head(chains[i + 1]) else target
  }

  ghost predicate NodeIs(n: DawgNode, l: Level, chain: seq<nat>, j: nat, child: nat, marked: bool)
    requires j < |chain| == |l.closed| + 1
  {
    n == (if j < |l.closed| then
            DawgNode(l.closed[j].target, if j == 0 then 0 else chain[j - 1], l.closed[j].c, j == 0, true)
          else
            DawgNode(child, if j == 0 then 0 else chain[j - 1], l.label_, j == 0, marked))
  }

  ghost predicate ChainNodeOk(nodes: seq<DawgNode>, chains: seq<seq<nat>>, levels: seq<Level>, target: nat,
                              place: map<nat, (nat, nat)>, marked: nat, i: nat, j: nat)
    requires i < |chains| == |levels| && j < |chains[i]| == |levels[i].closed| + 1
  {
    var n := chains[i][j];
    && 0 < n < |nodes|
    && n in place && place[n] == (i, j)
    && NodeIs(nodes[n], levels[i], chains[i], j, OpenChild(chains, target, i), n == marked)
  }

  ghost predicate ChainOk(nodes: seq<DawgNode>, chains: seq<seq<nat>>, levels: seq<Level>, target: nat,
                          place: map<nat, (nat, nat)>, marked: nat, i: nat)
    requires i < |chains| == |levels|
  {
    && |chains[i]| == |levels[i].closed| + 1
    && forall j :: 0 <= j < |chains[i]| ==> ChainNodeOk(nodes, chains, levels, target, place, marked, i, j)
  }

  ghost predicate BinOk(nodes: seq<DawgNode>, bin: seq<nat>, place: map<nat, (nat, nat)>) {
    && (forall n :: n in place ==> n < |nodes|)
    && (forall k :: 0 <= k < |bin| ==> 0 < bin[k] < |nodes| && bin[k] !in place)
    && (forall k, m :: 0 <= k < m < |bin| ==> bin[k] != bin[m])
  }

  function Stack(chains: seq<seq<nat>>): (r: seq<nat>)
    ensures |r| == |chains| + 1
    ensures r[0] == 0
    ensures forall i :: 0 <= i < |chains| ==> r[i + 1] == Head(chains[i])
  {
    if chains == [] then [0] else Stack(chains[..|chains| - 1]) + [Head(chains[|chains| - 1])]
  }

  /** The root has no siblings; its child is the head of the first level. */
  ghost predicate RootOk(nodes: seq<DawgNode>, chains: seq<seq<nat>>, target: nat, place: map<nat, (nat, nat)>) {
    && 0 < |nodes| && 0 !in place
    && nodes[0] == DawgNode(if chains == [] then target else Head(chains[0]), 0, 0xFF, false, false)
  }

  ghost predicate Physical(nodes: seq<DawgNode>, chains: seq<seq<nat>>, levels: seq<Level>, target: nat,
                           bin: seq<nat>, place: map<nat, (nat, nat)>, marked: nat)
  {
    && |chains| == |levels|
    && RootOk(nodes, chains, target, place)
    && BinOk(nodes, bin, place)
    && forall i :: 0 <= i < |chains| ==> ChainOk(nodes, chains, levels, target, place, marked, i)
  }

  lemma {:induction false} StackAppend(chains: seq<seq<nat>>, chain: seq<nat>)
    ensures Stack(chains + [chain]) == Stack(chains) + [Head(chain)]
  {
    assert (chains + [chain])[..|chains|] == chains;
  }

  /** Chain i stays well formed when only its head's child and sibling mark follow their new values. */
  lemma {:induction false} KeepChain(nodes: seq<DawgNode>, chains: seq<seq<nat>>, levels: seq<Level>, target: nat,
                                     place: map<nat, (nat, nat)>, marked: nat,
                                     nodes': seq<DawgNode>, chains': seq<seq<nat>>, levels': seq<Level>,
                                     target': nat, place': map<nat, (nat, nat)>, marked': nat, i: nat)
    requires i < |chains| == |levels| && i < |chains'| == |levels'|
    requires chains'[i] == chains[i] && levels'[i] == levels[i]
    requires ChainOk(nodes, chains, levels, target, place, marked, i)
    requires |nodes| <= |nodes'|
    requires forall n :: n in chains[i] && n in place ==> n in place' && place'[n] == place[n]
    requires forall n :: n in chains[i] && n < |nodes| ==>
      nodes'[n] == if n == Head(chains[i])
                   then nodes[n].(child := OpenChild(chains', target', i), hasSibling := n == marked')
                   else nodes[n]
    ensures ChainOk(nodes', chains', levels', target', place', marked', i)
  {
    hide OpenChild;
    var chain := chains[i];
    forall j | 0 <= j < |chain|
      ensures ChainNodeOk(nodes', chains', levels', target', place', marked', i, j)
    {
      assert ChainNodeOk(nodes, chains, levels, target, place, marked, i, j);
      assert chain[j] in chain;
      if j < |chain| - 1 {
        assert ChainNodeOk(nodes, chains, levels, target, place, marked, i, |chain| - 1);
      }
    }
  }

  /** Nodes of different chains are different. */
  lemma {:induction false} InChain(nodes: seq<DawgNode>, chains: seq<seq<nat>>, levels: seq<Level>, target: nat,
                                   place: map<nat, (nat, nat)>, marked: nat, i: nat)
    requires i < |chains| == |levels| && ChainOk(nodes, chains, levels, target, place, marked, i)
    ensures forall n :: n in chains[i] ==> 0 < n < |nodes| && n in place && place[n].0 == i
    ensures Head(chains[i]) in chains[i]
    ensures nodes[Head(chains[i])] ==
      nodes[Head(chains[i])].(child := OpenChild(chains, target, i), hasSibling := Head(chains[i]) == marked)
    ensures nodes[Head(chains[i])].label_ == levels[i].label_
  {
    var chain := chains[i];
    forall n | n in chain
      ensures 0 < n < |nodes| && n in place && place[n].0 == i
    {
      var j :| 0 <= j < |chain| && chain[j] == n;
      assert ChainNodeOk(nodes, chains, levels, target, place, marked, i, j);
    }
    assert ChainNodeOk(nodes, chains, levels, target, place, marked, i, |chain| - 1);
  }

  /** The top of the stack. */
  function Top(chains: seq<seq<nat>>): nat {
    if chains == [] then 0 else Head(chains[|chains| - 1])
  }

  lemma {:induction false} TopNode(nodes: seq<DawgNode>, chains: seq<seq<nat>>, levels: seq<Level>, target: nat,
                                   bin: seq<nat>, place: map<nat, (nat, nat)>, marked: nat)
    requires Physical(nodes, chains, levels, target, bin, place, marked)
    ensures Stack(chains)[|chains|] == Top(chains) < |nodes|
    ensures nodes[Top(chains)].child == target
    ensures nodes[Top(chains)].label_ == if chains == [] then 0xFF else levels[|levels| - 1].label_
  {
    hide ChainOk, BinOk;
    if chains != [] {
      InChain(nodes, chains, levels, target, place, marked, |chains| - 1);
    }
  }

  /** n has just been taken from the recycle bin or added at the end. */
  ghost predicate Allocated(nodes: seq<DawgNode>, bin: seq<nat>, place: map<nat, (nat, nat)>,
                            nodes': seq<DawgNode>, bin': seq<nat>, n: nat)
  {
    && 0 < n < |nodes'| && |nodes| <= |nodes'| && n !in place
    && nodes'[n] == NEW_NODE
    && (forall m: nat :: m < |nodes| && m != n ==> nodes'[m] == nodes[m])
    && (forall k :: 0 <= k < |bin'| ==> 0 < bin'[k] < |nodes'| && bin'[k] !in place && bin'[k] != n)
    && (forall k, m :: 0 <= k < m < |bin'| ==> bin'[k] != bin'[m])
  }

  lemma {:induction false} AllocateNew(nodes: seq<DawgNode>, place: map<nat, (nat, nat)>)
    requires 0 < |nodes| && forall n :: n in place ==> n < |nodes|
    ensures Allocated(nodes, [], place, nodes + [NEW_NODE], [], |nodes|)
  {
  }

  lemma {:induction false} AllocateRecycled(nodes: seq<DawgNode>, bin: seq<nat>, place: map<nat, (nat, nat)>)
    requires BinOk(nodes, bin, place) && bin != []
    ensures var n := bin[|bin| - 1];
      n < |nodes| && Allocated(nodes, bin, place, nodes[n := NEW_NODE], bin[..|bin| - 1], n)
  {
  }

  /** Marking the head of level k: a larger sibling is on its way. */
  lemma {:induction false} MarkHead(nodes: seq<DawgNode>, chains: seq<seq<nat>>, levels: seq<Level>, target: nat,
                                    bin: seq<nat>, place: map<nat, (nat, nat)>, k: nat)
    requires Physical(nodes, chains, levels, target, bin, place, 0) && k < |chains|
    ensures var h := Head(chains[k]);
      h < |nodes| && h > 0
      && Physical(nodes[h := nodes[h].(hasSibling := true)], chains, levels, target, bin, place, h)
  {
    hide ChainOk, BinOk, OpenChild;
    var h := Head(chains[k]);
    InChain(nodes, chains, levels, target, place, 0, k);
    var nodes' := nodes[h := nodes[h].(hasSibling := true)];
    SameBin(nodes, nodes', bin, place);
    forall i | 0 <= i < |chains|
      ensures ChainOk(nodes', chains, levels, target, place, h, i)
    {
      InChain(nodes, chains, levels, target, place, 0, i);
      KeepChain(nodes, chains, levels, target, place, 0, nodes', chains, levels, target, place, h, i);
    }
  }

  lemma {:induction false} SameBin(nodes: seq<DawgNode>, nodes': seq<DawgNode>, bin: seq<nat>,
                                   place: map<nat, (nat, nat)>)
    requires BinOk(nodes, bin, place) && |nodes| <= |nodes'|
    ensures BinOk(nodes', bin, place)
  {
  }

  /** The value, or any other target, of the top node. */
  lemma {:induction false} SetTarget(nodes: seq<DawgNode>, chains: seq<seq<nat>>, levels: seq<Level>, target: nat,
                                     bin: seq<nat>, place: map<nat, (nat, nat)>, marked: nat, target': nat)
    requires Physical(nodes, chains, levels, target, bin, place, marked)
    ensures var h := Top(chains);
      h < |nodes|
      && Physical(nodes[h := nodes[h].(child := target')], chains, levels, target', bin, place, marked)
  {
    hide ChainOk, BinOk;
    TopNode(nodes, chains, levels, target, bin, place, marked);
    var h := Top(chains);
    var nodes' := nodes[h := nodes[h].(child := target')];
    SameBin(nodes, nodes', bin, place);
    if chains != [] {
      InChain(nodes, chains, levels, target, place, marked, |chains| - 1);
    }
    forall i | 0 <= i < |chains|
      ensures ChainOk(nodes', chains, levels, target', place, marked, i)
    {
      InChain(nodes, chains, levels, target, place, marked, i);
      KeepChain(nodes, chains, levels, target, place, marked, nodes', chains, levels, target', place, marked, i);
    }
  }

  // Popping a level.

  function Reverse(s: seq<nat>): (r: seq<nat>)
    ensures |r| == |s|
    ensures forall k :: 0 <= k < |s| ==> r[k] == s[|s| - 1 - k]
  {
    if s == [] then [] else [s[|s| - 1]] + Reverse(s[..|s| - 1])
  }

  /** The places of the chains below level n. */
  function PlacesBelow(place: map<nat, (nat, nat)>, n: nat): map<nat, (nat, nat)> {
    map x | x in place && place[x].0 < n :: place[x]
  }

  lemma {:induction false} ChainDistinct(nodes: seq<DawgNode>, chains: seq<seq<nat>>, levels: seq<Level>, target: nat,
                                         place: map<nat, (nat, nat)>, marked: nat, i: nat)
    requires i < |chains| == |levels| && ChainOk(nodes, chains, levels, target, place, marked, i)
    ensures forall j, k :: 0 <= j < k < |chains[i]| ==> chains[i][j] != chains[i][k]
  {
    forall j, k | 0 <= j < k < |chains[i]|
      ensures chains[i][j] != chains[i][k]
    {
      assert ChainNodeOk(nodes, chains, levels, target, place, marked, i, j);
      assert ChainNodeOk(nodes, chains, levels, target, place, marked, i, k);
    }
  }

  lemma {:induction false} FreeChain(nodes: seq<DawgNode>, bin: seq<nat>, place: map<nat, (nat, nat)>, chain: seq<nat>,
                                     n: nat)
    requires BinOk(nodes, bin, place)
    requires forall x :: x in chain ==> 0 < x < |nodes| && x in place && place[x].0 == n
    requires forall j, k :: 0 <= j < k < |chain| ==> chain[j] != chain[k]
    ensures BinOk(nodes, bin + Reverse(chain), PlacesBelow(place, n))
  {
    var all, rev := bin + Reverse(chain), Reverse(chain);
    forall k | 0 <= k < |rev|
      ensures rev[k] in chain
    {
      assert rev[k] == chain[|chain| - 1 - k];
    }
    forall k, m | 0 <= k < m < |all|
      ensures all[k] != all[m]
    {
      if m >= |bin| {
        assert all[m] == rev[m - |bin|] && rev[m - |bin|] in chain;
        if k >= |bin| {
          assert all[k] == rev[k - |bin|];
        }
      }
    }
  }

  /** The top level is gone, its nodes are free, and the level above leads to g. */
  lemma {:induction false} PopLevel(nodes: seq<DawgNode>, chains: seq<seq<nat>>, levels: seq<Level>, target: nat,
                                    bin: seq<nat>, place: map<nat, (nat, nat)>, marked: nat, g: nat)
    requires Physical(nodes, chains, levels, target, bin, place, marked) && chains != []
    ensures var n := |chains|; var upper := chains[..n - 1]; var h := Top(upper);
      h < |nodes|
      && Physical(nodes[h := nodes[h].(child := g)], upper, levels[..n - 1], g,
                  bin + Reverse(chains[n - 1]), PlacesBelow(place, n - 1), marked)
  {
    hide ChainOk, BinOk, Reverse;
    var n := |chains|;
    var upper := chains[..n - 1];
    var h := Top(upper);
    InChain(nodes, chains, levels, target, place, marked, n - 1);
    ChainDistinct(nodes, chains, levels, target, place, marked, n - 1);
    FreeChain(nodes, bin, place, chains[n - 1], n - 1);
    if upper != [] {
      InChain(nodes, chains, levels, target, place, marked, n - 2);
    }
    var nodes', place' := nodes[h := nodes[h].(child := g)], PlacesBelow(place, n - 1);
    SameBin(nodes, nodes', bin + Reverse(chains[n - 1]), place');
    var levels' := levels[..n - 1];
    forall i | 0 <= i < |upper|
      ensures ChainOk(nodes', upper, levels', g, place', marked, i)
    {
      InChain(nodes, chains, levels, target, place, marked, i);
      KeepChain(nodes, chains, levels, target, place, marked, nodes', upper, levels', g, place', marked, i);
    }
  }

  // Pushing a node.

  /** A first child under the top node. */
  lemma {:induction false} PushFresh(nodes: seq<DawgNode>, chains: seq<seq<nat>>, levels: seq<Level>,
                                     bin: seq<nat>, place: map<nat, (nat, nat)>,
                                     nodes1: seq<DawgNode>, bin1: seq<nat>, n: nat, c: Byte)
    requires Physical(nodes, chains, levels, 0, bin, place, 0)
    requires Allocated(nodes, bin, place, nodes1, bin1, n)
    ensures var h := Top(chains);
      h < |nodes1| && h != n
      && var nodes' := nodes1[n := DawgNode(0, 0, c, true, false)];
         Physical(nodes'[h := nodes'[h].(child := n)], chains + [[n]], levels + [Level([], c)], 0, bin1,
                  place[n := (|chains|, 0)], 0)
  {
    hide ChainOk;
    var h, i0 := Top(chains), |chains|;
    TopNode(nodes, chains, levels, 0, bin, place, 0);
    if chains != [] {
      InChain(nodes, chains, levels, 0, place, 0, i0 - 1);
    }
    var mid := nodes1[n := DawgNode(0, 0, c, true, false)];
    var nodes' := mid[h := mid[h].(child := n)];
    var chains', levels' := chains + [[n]], levels + [Level([], c)];
    var place' := place[n := (i0, 0)];
    forall i | 0 <= i < |chains'|
      ensures ChainOk(nodes', chains', levels', 0, place', 0, i)
    {
      if i < i0 {
        InChain(nodes, chains, levels, 0, place, 0, i);
        KeepChain(nodes, chains, levels, 0, place, 0, nodes', chains', levels', 0, place', 0, i);
      } else {
        NewChain(nodes', chains', levels', place', i0, n, c);
      }
    }
  }

  lemma {:induction false} NewChain(nodes: seq<DawgNode>, chains: seq<seq<nat>>, levels: seq<Level>,
                                    place: map<nat, (nat, nat)>, i: nat, n: nat, c: Byte)
    requires |chains| == |levels| == i + 1 && chains[i] == [n] && levels[i] == Level([], c)
    requires 0 < n < |nodes| && n in place && place[n] == (i, 0)
    requires nodes[n] == DawgNode(0, 0, c, true, false)
    ensures ChainOk(nodes, chains, levels, 0, place, 0, i)
  {
    forall j | 0 <= j < |chains[i]|
      ensures ChainNodeOk(nodes, chains, levels, 0, place, 0, i, j)
    {
    }
  }

  /** A larger sibling of the marked head of the last level, which is closed on `target`. */
  lemma {:induction false} PushSibling(nodes: seq<DawgNode>, chains: seq<seq<nat>>, levels: seq<Level>, target: nat,
                                       bin: seq<nat>, place: map<nat, (nat, nat)>,
                                       nodes1: seq<DawgNode>, bin1: seq<nat>, n: nat, c: Byte)
    requires chains != [] && Physical(nodes, chains, levels, target, bin, place, Top(chains))
    requires Allocated(nodes, bin, place, nodes1, bin1, n)
    ensures var k := |chains| - 1; var upper := chains[..k]; var h := Top(upper);
      k < |levels| && h < |nodes1| && h != n
      && var nodes' := nodes1[n := DawgNode(0, Top(chains), c, false, false)];
         Physical(nodes'[h := nodes'[h].(child := n)], upper + [chains[k] + [n]],
                  levels[..k] + [Level(Group(levels[k], target), c)], 0, bin1,
                  place[n := (k, |chains[k]|)], 0)
  {
    hide ChainOk;
    var k := |chains| - 1;
    var upper := chains[..k];
    var h, old_ := Top(upper), Top(chains);
    InChain(nodes, chains, levels, target, place, old_, k);
    if upper != [] {
      InChain(nodes, chains, levels, target, place, old_, k - 1);
    }
    var mid := nodes1[n := DawgNode(0, old_, c, false, false)];
    var nodes' := mid[h := mid[h].(child := n)];
    var chains' := upper + [chains[k] + [n]];
    var levels' := levels[..k] + [Level(Group(levels[k], target), c)];
    var place' := place[n := (k, |chains[k]|)];
    forall i | 0 <= i < |chains'|
      ensures ChainOk(nodes', chains', levels', 0, place', 0, i)
    {
      if i < k {
        InChain(nodes, chains, levels, target, place, old_, i);
        KeepChain(nodes, chains, levels, target, place, old_, nodes', chains', levels', 0, place', 0, i);
      } else {
        LongerChain(nodes, chains, levels, target, place, nodes', chains', levels', place', n, c);
      }
    }
  }

  lemma {:induction false} LongerChain(nodes: seq<DawgNode>, chains: seq<seq<nat>>, levels: seq<Level>, target: nat,
                                       place: map<nat, (nat, nat)>, nodes': seq<DawgNode>,
                                       chains': seq<seq<nat>>, levels': seq<Level>,
                                       place': map<nat, (nat, nat)>, n: nat, c: Byte)
    requires 0 < |chains| == |levels| && |chains'| == |levels'| == |chains|
    requires var k := |chains| - 1;
      && ChainOk(nodes, chains, levels, target, place, Top(chains), k)
      && chains'[k] == chains[k] + [n] && levels'[k] == Level(Group(levels[k], target), c)
      && 0 < n < |nodes'| && |nodes| <= |nodes'| && n !in place
      && place' == place[n := (k, |chains[k]|)]
      && nodes'[n] == DawgNode(0, Top(chains), c, false, false)
      && forall x :: x in chains[k] && x < |nodes| ==> nodes'[x] == nodes[x]
    ensures ChainOk(nodes', chains', levels', 0, place', 0, |chains| - 1)
  {
    var k := |chains| - 1;
    var chain := chains[k];
    forall j | 0 <= j < |chains'[k]|
      ensures ChainNodeOk(nodes', chains', levels', 0, place', 0, k, j)
    {
      if j < |chain| {
        assert ChainNodeOk(nodes, chains, levels, target, place, Top(chains), k, j);
        assert chain[j] in chain;
      }
    }
  }

  // The chain on top, as the list of arcs that it will become.

  ghost predicate ChainIs(nodes: seq<DawgNode>, chain: seq<nat>, arcs: seq<Arc>) {
    && 0 < |chain| == |arcs|
    && forall j :: 0 <= j < |chain| ==> ArcNode(nodes, chain, arcs, j)
  }

  ghost predicate ArcNode(nodes: seq<DawgNode>, chain: seq<nat>, arcs: seq<Arc>, j: nat)
    requires j < |chain| == |arcs|
  {
    && 0 < chain[j] < |nodes|
    && nodes[chain[j]] == DawgNode(arcs[j].target, if j == 0 then 0 else chain[j - 1], arcs[j].c, j == 0, j + 1 < |arcs|)
  }

  /** Position j of a chain, counted from its oldest node; 0 stands for the end of the list. */
  function ChainAt(chain: seq<nat>, j: nat): nat
    requires j <= |chain|
  {
    if j == 0 then 0 else chain[j - 1]
  }

  lemma {:induction false} TopChain(nodes: seq<DawgNode>, chains: seq<seq<nat>>, levels: seq<Level>, target: nat,
                                    bin: seq<nat>, place: map<nat, (nat, nat)>, marked: nat)
    requires Physical(nodes, chains, levels, target, bin, place, marked)
    requires chains != [] && Top(chains) != marked
    ensures |levels| == |chains|
    ensures ChainIs(nodes, chains[|chains| - 1], Group(levels[|levels| - 1], target))
  {
    hide BinOk;
    var k := |chains| - 1;
    var chain, arcs := chains[k], Group(levels[k], target);
    assert ChainOk(nodes, chains, levels, target, place, marked, k);
    forall j | 0 <= j < |chain|
      ensures ArcNode(nodes, chain, arcs, j)
    {
      assert ChainNodeOk(nodes, chains, levels, target, place, marked, k, j);
    }
  }

  lemma {:induction false} ArcNodeRead(nodes: seq<DawgNode>, chain: seq<nat>, arcs: seq<Arc>, j: nat)
    requires ChainIs(nodes, chain, arcs) && j < |chain|
    ensures 0 < chain[j] < |nodes|
    ensures nodes[chain[j]].sibling == ChainAt(chain, j)
    ensures nodes[chain[j]].label_ == arcs[j].c
    ensures nodes[chain[j]].Word() == ArcWord(arcs[j], j == 0, j + 1 < |arcs|)
  {
    hide ArcWord;
    assert ArcNode(nodes, chain, arcs, j);
  }
}
