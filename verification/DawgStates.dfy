/**
  A frozen state of the word graph as the double-array builder reads it, and the
  table of offsets at which shared states have been placed.
 */
module DawgStates {
  import opened Bitwise
  import opened BitVectors
  import opened Dictionary
  import opened UnitWords
  import opened Layouts
  import opened BuilderState
  import opened KeysetRanges
  import opened DawgLevels
  import opened DawgGraphs
  import opened KeyWeights

  ghost function ArcLabels(arcs: seq<Arc>): (r: seq<Byte>)
    ensures |r| == |arcs|
  {
    seq(|arcs|, i requires 0 <= i < |arcs| => arcs[i].c)
  }

  /** What the unit of arc j of state g tells: its label, whether more arcs follow, and where it leads. */
  lemma {:induction false} ReadArc(units: seq<nat>, labels: seq<Byte>, groups: map<nat, seq<Arc>>,
                                   lang: map<nat, Dict>, g: nat, j: nat)
    requires Graph(units, labels, groups, lang) && g in groups && g in lang && j < |groups[g]|
    ensures var a := groups[g][j];
      && 0 < g && g + j < |units| == |labels| && labels[g + j] == a.c
      && (UnitHasSibling(units[g + j]) <==> j + 1 < |groups[g]|)
      && (j == 0 && [] in lang[g] ==> a.c == 0)
      && (a.c == 0 ==> UnitValue(units[g + j]) == a.target < TOP_BIT && [] in lang[g])
      && (a.c != 0 ==> UnitChild(units[g + j]) == a.target)
  {
    hide ArcsDict, ArcWord, HeadUnitOk, NulFree, UnitValue, UnitChild, UnitHasSibling;
    var arcs := groups[g];
    assert StateOk(units, labels, groups, lang, g);
    assert UnitAt(units, labels, g, arcs, j);
    ReadArcWord(arcs[j], j == 0, j + 1 < |arcs|);
    ArcsLeaf(arcs, lang);
    assert ArcOk(arcs[j], lang, g);
    assert 0 < j ==> LabelBefore(arcs[0].c, arcs[j].c);
  }

  /** An arc leads to what is left of the state's map after its byte. */
  lemma {:induction false} FollowArc(units: seq<nat>, labels: seq<Byte>, groups: map<nat, seq<Arc>>,
                                     lang: map<nat, Dict>, g: nat, j: nat)
    requires Graph(units, labels, groups, lang) && g in groups && g in lang && j < |groups[g]|
    requires groups[g][j].c != 0
    ensures var a := groups[g][j];
      a.target in lang && a.target in groups && a.target < g && After(lang[g], a.c) == lang[a.target]
  {
    hide ArcsDict, StateAt, HeadUnitOk, NulFree, After;
    var arcs := groups[g];
    assert StateOk(units, labels, groups, lang, g);
    assert ArcOk(arcs[j], lang, g);
    ArcsOkKnown(arcs, lang, g);
    ArcsAfter(arcs, lang, arcs[j].c);
  }

  lemma {:induction false} LeafTargetFits(arcs: seq<Arc>, lang: map<nat, Dict>, g: nat)
    requires forall j :: 0 <= j < |arcs| ==> ArcOk(arcs[j], lang, g)
    ensures LeafTarget(arcs) < TOP_BIT
    decreases |arcs|
  {
    if arcs != [] {
      var n := |arcs| - 1;
      assert ArcOk(arcs[n], lang, g);
      forall j | 0 <= j < n
        ensures ArcOk(arcs[..n][j], lang, g)
      {
        assert ArcOk(arcs[j], lang, g);
      }
      LeafTargetFits(arcs[..n], lang, g);
    }
  }

  lemma {:induction false} LeafTargetStep(arcs: seq<Arc>, j: nat)
    requires j < |arcs|
    ensures LeafTarget(arcs[..j + 1]) == if arcs[j].c == 0 then arcs[j].target else LeafTarget(arcs[..j])
  {
    assert arcs[..j + 1][..j] == arcs[..j];
  }

  lemma {:induction false} LabelsOrderly(arcs: seq<Arc>)
    requires ArcsAscend(arcs)
    ensures Orderly(ArcLabels(arcs))
  {
    var ls := ArcLabels(arcs);
    forall i, j | 0 <= i < j < |ls|
      ensures ls[i] < ls[j] || ls[j] == 0 == ls[i]
    {
      assert LabelBefore(arcs[i].c, arcs[j].c);
    }
  }

  /** The labels of a state are those of its map, in order, and the last label 0 carries the value. */
  lemma {:induction false} StateFacts(units: seq<nat>, labels: seq<Byte>, groups: map<nat, seq<Arc>>,
                                      lang: map<nat, Dict>, g: nat)
    requires Graph(units, labels, groups, lang) && g in groups && g in lang
    ensures var d := lang[g]; var ls := ArcLabels(groups[g]);
      && d != map[] && NoNulStep(d)
      && |ls| > 0 && Orderly(ls) && (forall c: Byte :: c in ls <==> HasLabel(d, c))
      && LeafTarget(groups[g]) < TOP_BIT && ([] in d ==> d[[]] == LeafTarget(groups[g]))
  {
    hide ArcsDict, HeadUnitOk, NulFree, UnitAt, After, HasLabel;
    assert StateOk(units, labels, groups, lang, g);
    ArcsLeaf(groups[g], lang);
    LeafTargetFits(groups[g], lang, g);
    LabelsOrderly(groups[g]);
    hide LeafTarget, ArcsAscend, Orderly;
    AfterNulFree(lang[g], 0);
    var ls := ArcLabels(groups[g]);
    forall c: Byte
      ensures c in ls <==> HasLabel(lang[g], c)
    {
      StateLabels(units, labels, groups, lang, g, c);
      if c in ls {
        var j :| 0 <= j < |ls| && ls[j] == c;
        assert groups[g][j].c == c;
      }
      if j :| 0 <= j < |groups[g]| && groups[g][j].c == c {
        assert ls[j] == c;
      }
    }
  }

  /** The smallest label left when the first j arcs are done. */
  ghost function NextLabelOf(arcs: seq<Arc>, j: nat): nat {
    if j < |arcs| then arcs[j].c else 256
  }

  lemma {:induction false} EnterArcs(before: Plan, after: Plan, dicId: nat, offset: nat, d: Dict, arcs: seq<Arc>)
    requires Arranged(before, after, dicId, offset, d, ArcLabels(arcs)) && dicId in before.nodes
    requires ArcsAscend(arcs) && |arcs| > 0
    ensures after.pending == PendingFrom(before.pending - {dicId}, offset, ArcLabels(arcs), NextLabelOf(arcs, 0))
    ensures Extends(before.nodes, after.nodes) && Extends(after.nodes, after.nodes)
  {
    hide Arranged, PendingFrom, Extends;
    var ls := ArcLabels(arcs);
    forall c | c in ls
      ensures c >= arcs[0].c
    {
      var j :| 0 <= j < |ls| && ls[j] == c;
      assert 0 < j ==> LabelBefore(arcs[0].c, arcs[j].c);
    }
    EnterGroups(before, after, dicId, offset, d, ls, arcs[0].c);
  }

  /** A larger label belongs to a later arc. */
  lemma {:induction false} LaterArc(arcs: seq<Arc>, i: nat, j: nat)
    requires ArcsAscend(arcs) && i < |arcs| && j < |arcs| && arcs[j].c < arcs[i].c
    ensures j < i && j + 1 < |arcs| && arcs[j + 1].c <= arcs[i].c
  {
    assert j + 1 < i ==> LabelBefore(arcs[j + 1].c, arcs[i].c);
  }

  /** Done with arc j: only the units for later arcs remain. */
  lemma {:induction false} NextArc(base: set<nat>, offset: nat, arcs: seq<Arc>, j: nat)
    requires ArcsAscend(arcs) && j < |arcs| && base !! ChildNodes(offset, ArcLabels(arcs))
    ensures var ls := ArcLabels(arcs); var c := arcs[j].c;
      var now, later := PendingFrom(base, offset, ls, c), PendingFrom(base, offset, ls, NextLabelOf(arcs, j + 1));
      if c == 0 then now == later else now - {Xor(offset, c)} == later && Xor(offset, c) in now
  {
    hide PendingFrom, ChildNodes, Xor;
    var ls, c, next := ArcLabels(arcs), arcs[j].c, NextLabelOf(arcs, j + 1);
    forall b | b in ls && b > c
      ensures b >= next
    {
      var i :| 0 <= i < |ls| && ls[i] == b;
      LaterArc(arcs, i, j);
    }
    assert ls[j] == c;
    assert j + 1 < |arcs| ==> LabelBefore(arcs[j].c, arcs[j + 1].c);
    if c == 0 {
      SkipZero(base, offset, ls, next);
    } else {
      PendingNext(base, offset, ls, c, next);
    }
  }

  /** The unit for label 0 is never pending. */
  lemma {:induction false} SkipZero(base: set<nat>, offset: nat, labels: seq<Byte>, next: nat)
    requires forall b :: b in labels && b > 0 ==> b >= next
    ensures PendingFrom(base, offset, labels, 0) == PendingFrom(base, offset, labels, next)
  {
    hide LabelsFrom, ChildNodes;
    SameChildNodes(offset, LabelsFrom(labels, 0), LabelsFrom(labels, next));
  }

  // The table of shared states.

  /** Shared state g has entry Ones(bits[..g + 1]) - 1. */
  ghost predicate EntryOk(table: seq<nat>, bits: seq<bool>, lang: map<nat, Dict>, placed: map<nat, Dict>, g: nat)
    requires g < |bits| && |table| == Ones(bits)
  {
    bits[g] ==>
      var k := Ones(bits[..g + 1]);
      0 < k <= |table| && (table[k - 1] != 0 ==>
        g in lang && table[k - 1] in placed && placed[table[k - 1]] == lang[g])
  }

  /** The offset at which the children of state g have been placed for sharing, or 0. */
  ghost function Entry(table: seq<nat>, bits: seq<bool>, g: nat): nat
    requires g < |bits|
  {
    var k := Ones(bits[..g + 1]);
    if bits[g] && 0 < k <= |table| then table[k - 1] else 0
  }

  /** An entry that has been made may get another offset, but does not go. */
  ghost predicate EntriesKept(table: seq<nat>, table': seq<nat>) {
    |table| == |table'| && forall k :: 0 <= k < |table| && table[k] != 0 ==> table'[k] != 0
  }

  lemma {:induction false} EntryKept(table: seq<nat>, table': seq<nat>, bits: seq<bool>, g: nat)
    requires g < |bits| && EntriesKept(table, table') && Entry(table, bits, g) != 0
    ensures Entry(table', bits, g) != 0
  {
  }

  lemma {:induction false} EntriesKeptTwice(table: seq<nat>, table1: seq<nat>, table2: seq<nat>)
    requires EntriesKept(table, table1) && EntriesKept(table1, table2)
    ensures EntriesKept(table, table2)
  {
  }

  lemma {:induction false} EntriesSame(table: seq<nat>)
    ensures EntriesKept(table, table)
  {
  }

  /** Every offset in the table holds the children of the state it is kept for. */
  ghost predicate SharedOk(table: seq<nat>, bits: seq<bool>, lang: map<nat, Dict>, placed: map<nat, Dict>) {
    |table| == Ones(bits) && forall g :: 0 <= g < |bits| ==> EntryOk(table, bits, lang, placed, g)
  }

  lemma {:induction false} NothingShared(table: seq<nat>, bits: seq<bool>, lang: map<nat, Dict>, placed: map<nat, Dict>)
    requires |table| == Ones(bits) && forall k :: 0 <= k < |table| ==> table[k] == 0
    ensures SharedOk(table, bits, lang, placed)
  {
    hide Ones;
    forall g | 0 <= g < |bits|
      ensures EntryOk(table, bits, lang, placed, g)
    {
      if bits[g] {
        RankBijection(bits, g, g);
      }
    }
  }

  lemma {:induction false} SharedGrows(table: seq<nat>, bits: seq<bool>, lang: map<nat, Dict>,
                                       placed: map<nat, Dict>, placed': map<nat, Dict>)
    requires SharedOk(table, bits, lang, placed) && Grows(placed, placed')
    ensures SharedOk(table, bits, lang, placed')
  {
    hide Ones;
    forall g | 0 <= g < |bits|
      ensures EntryOk(table, bits, lang, placed', g)
    {
      assert EntryOk(table, bits, lang, placed, g);
    }
  }

  /** Recording where state g was placed leaves the other entries alone. */
  lemma {:induction false} ShareState(table: seq<nat>, bits: seq<bool>, lang: map<nat, Dict>,
                                      placed: map<nat, Dict>, g: nat, offset: nat)
    requires SharedOk(table, bits, lang, placed) && g < |bits| && bits[g]
    requires g in lang && offset in placed && placed[offset] == lang[g]
    ensures var k := Ones(bits[..g + 1]);
      0 < k <= |table| && SharedOk(table[k - 1 := offset], bits, lang, placed)
      && (offset != 0 ==> EntriesKept(table, table[k - 1 := offset]) && Entry(table[k - 1 := offset], bits, g) == offset)
  {
    hide Ones;
    RankBijection(bits, g, g);
    var k := Ones(bits[..g + 1]);
    var table' := table[k - 1 := offset];
    forall x | 0 <= x < |bits|
      ensures EntryOk(table', bits, lang, placed, x)
    {
      assert EntryOk(table, bits, lang, placed, x);
      if bits[x] {
        RankBijection(bits, x, g);
      }
    }
  }

  lemma {:induction false} ArrangedGrows(before: Plan, after: Plan, dicId: nat, offset: nat, d: Dict, labels: seq<Byte>)
    requires Arranged(before, after, dicId, offset, d, labels) && offset !in before.placed
    ensures Grows(before.placed, after.placed)
    ensures offset in after.placed && after.placed[offset] == d
  {
  }

  lemma {:induction false} ArcLabelAt(arcs: seq<Arc>, j: nat)
    requires j < |arcs|
    ensures ArcLabels(arcs)[j] == arcs[j].c
    ensures ArcLabels(arcs)[..j + 1] == ArcLabels(arcs)[..j] + [arcs[j].c]
  {
  }

  lemma {:induction false} ArcLabelsAll(arcs: seq<Arc>)
    ensures ArcLabels(arcs)[..|arcs|] == ArcLabels(arcs)
  {
  }

  lemma {:induction false} ExtendsSame(nodes: map<nat, Dict>)
    ensures Extends(nodes, nodes)
  {
  }

  /** Writing a shared offset keeps the label and the has-leaf bit of the parent. */
  lemma {:induction false} SharedWord(u: nat, word: nat, rel: nat, leaf: bool)
    requires u < TOP_BIT && OffsetFits(rel) && MasksAllow(rel)
    requires word == if leaf then SetHasLeaf(u) else u
    ensures word < TOP_BIT
    ensures var w := SetOffset(word, rel);
      ParentWord(w, rel, u % 256, leaf) && (HasLeaf(w) <==> HasLeaf(word))
  {
    hide SetOffset, SetHasLeaf, HasLeaf, Offset;
    LeafBit(u);
    StartWord(word, rel);
  }

  lemma {:induction false} GroupsAscend(units: seq<nat>, labels: seq<Byte>, groups: map<nat, seq<Arc>>,
                                        lang: map<nat, Dict>, g: nat)
    requires Graph(units, labels, groups, lang) && g in groups && g in lang
    ensures ArcsAscend(groups[g]) && |groups[g]| > 0
  {
    hide ArcsDict, StateAt, HeadUnitOk, NulFree, ArcOk;
    assert StateOk(units, labels, groups, lang, g);
  }

  /** The children of a new placement were not nodes before. */
  lemma {:induction false} ChildrenApart(before: Plan, arranged: Plan, dicId: nat, offset: nat, d: Dict,
                                         labels: seq<Byte>)
    requires Arranged(before, arranged, dicId, offset, d, labels) && before.pending <= before.nodes.Keys
    ensures before.pending - {dicId} !! ChildNodes(offset, labels)
  {
    hide ChildNodes, Xor, After;
  }

  /** One block for the state, and one for each byte and key behind its arcs. */
  lemma {:induction false} StateWeight(units: seq<nat>, labels: seq<Byte>, groups: map<nat, seq<Arc>>,
                                       lang: map<nat, Dict>, g: nat)
    requires Graph(units, labels, groups, lang) && g in groups && g in lang
    ensures 1 + Bytes(Below(lang[g], 256)) <= Weight(lang[g])
  {
    hide ArcsDict, StateAt, HeadUnitOk, NulFree, Bytes, Weight, Below;
    assert StateOk(units, labels, groups, lang, g);
    BelowAll(lang[g]);
  }

  lemma {:induction false} LabelOrderOf(arcs: seq<Arc>, j: nat)
    requires ArcsAscend(arcs) && j < |arcs|
    ensures arcs[j].c <= NextLabelOf(arcs, j + 1) <= 256
    ensures arcs[j].c != 0 ==> arcs[j].c < NextLabelOf(arcs, j + 1)
  {
    assert j + 1 < |arcs| ==> LabelBefore(arcs[j].c, arcs[j + 1].c);
  }
}
