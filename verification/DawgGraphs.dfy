/**
  The frozen part of a word graph: one fixed unit for each arc, the arcs of a
  state next to each other, and a hash of a state that does not depend on the
  order in which its arcs are read.
 */
module DawgGraphs {
  import opened Bitwise
  import opened Dictionary
  import opened DawgLevels

  const TWO_32: nat := 0x1_0000_0000
  const MAX_VALUES: nat := 0x8000_0000

  /** The packed word of an arc: value or child, first arc of its state, more arcs to come. */
  function ArcWord(a: Arc, first: bool, more: bool): nat {
    if a.c == 0 then 2 * a.target + (if more then 1 else 0)
    else 4 * a.target + (if first then 2 else 0) + (if more then 1 else 0)
  }

  function UnitChild(u: nat): nat { u / 4 }
  function UnitValue(u: nat): nat { u / 2 }
  predicate UnitHasSibling(u: nat) { u % 2 == 1 }
  predicate UnitIsState(u: nat) { u / 2 % 2 == 1 }

  lemma {:induction false} ReadArcWord(a: Arc, first: bool, more: bool)
    ensures var u := ArcWord(a, first, more);
      && (UnitHasSibling(u) <==> more)
      && (a.c == 0 ==> UnitValue(u) == a.target)
      && (a.c != 0 ==> UnitChild(u) == a.target && (UnitIsState(u) <==> first))
  {
  }

  lemma {:induction false} ArcWordInjective(a: Arc, b: Arc, first: bool, more: bool)
    requires a.c == b.c && ArcWord(a, first, more) == ArcWord(b, first, more)
    ensures a == b
  {
  }

  /** State g occupies the units from g on, one for each arc. */
  ghost predicate StateAt(units: seq<nat>, labels: seq<Byte>, g: nat, arcs: seq<Arc>) {
    && 0 < g && 0 < |arcs| && g + |arcs| <= |units| && |units| == |labels|
    && forall j :: 0 <= j < |arcs| ==> UnitAt(units, labels, g, arcs, j)
  }

  ghost predicate UnitAt(units: seq<nat>, labels: seq<Byte>, g: nat, arcs: seq<Arc>, j: nat)
    requires j < |arcs| && g + j < |units| == |labels|
  {
    labels[g + j] == arcs[j].c && units[g + j] == ArcWord(arcs[j], j == 0, j + 1 < |arcs|)
  }

  /** An arc carries a value in range, or leads to an earlier state. */
  ghost predicate ArcOk(a: Arc, lang: map<nat, Dict>, g: nat) {
    if a.c == 0 then a.target < MAX_VALUES else a.target in lang && a.target < g
  }

  ghost predicate ArcsOk(arcs: seq<Arc>, lang: map<nat, Dict>, g: nat) {
    && arcs != []
    && ArcsAscend(arcs)
    && forall j :: 0 <= j < |arcs| ==> ArcOk(arcs[j], lang, g)
  }

  ghost predicate StateOk(units: seq<nat>, labels: seq<Byte>, groups: map<nat, seq<Arc>>, lang: map<nat, Dict>, g: nat)
    requires g in groups && g in lang
  {
    && StateAt(units, labels, g, groups[g])
    && ArcsOk(groups[g], lang, g)
    && lang[g] == ArcsDict(groups[g], lang)
    && lang[g] != map[] && NulFree(lang[g])
  }

  /** A unit looks like the first one of a state: the others labelled 0 are states of their own. */
  ghost predicate HeadUnitOk(units: seq<nat>, labels: seq<Byte>, groups: map<nat, seq<Arc>>, i: nat)
    requires i < |units| == |labels|
  {
    i in groups <==> labels[i] == 0 || UnitIsState(units[i])
  }

  ghost predicate Graph(units: seq<nat>, labels: seq<Byte>, groups: map<nat, seq<Arc>>, lang: map<nat, Dict>) {
    && 0 < |units| == |labels|
    && groups.Keys == lang.Keys
    && (forall g :: g in groups ==> StateOk(units, labels, groups, lang, g))
    && (forall i :: 0 < i < |units| ==> HeadUnitOk(units, labels, groups, i))
  }

  ghost predicate Grows<K, V>(before: map<K, V>, after: map<K, V>) {
    forall k :: k in before ==> k in after && after[k] == before[k]
  }

  lemma {:induction false} ArcsOkKnown(arcs: seq<Arc>, lang: map<nat, Dict>, g: nat)
    requires ArcsOk(arcs, lang, g)
    ensures ArcsKnown(arcs, lang)
  {
    forall i | 0 <= i < |arcs|
      ensures ArcKnown(arcs[i], lang)
    {
      assert ArcOk(arcs[i], lang, g);
    }
  }

  // A new state.

  /** Unit i looks like the first one of a state when the arcs are at the units from g on. */
  ghost predicate StartsAt(g: nat, arcs: seq<Arc>, i: nat) {
    g <= i < g + |arcs| && (i == g || arcs[i - g].c == 0)
  }

  /** The arcs that a reader finds from unit i on. */
  ghost function ArcsFrom(g: nat, arcs: seq<Arc>, i: nat): seq<Arc>
    requires g <= i < g + |arcs|
  {
    arcs[i - g..]
  }

  /** The state at g, and the states that its further arcs labelled 0 look like. */
  ghost function NewStates(g: nat, arcs: seq<Arc>): map<nat, seq<Arc>> {
    map i: nat | g <= i < g + |arcs| && StartsAt(g, arcs, i) :: ArcsFrom(g, arcs, i)
  }

  ghost function NewMeanings(g: nat, arcs: seq<Arc>, lang: map<nat, Dict>): map<nat, Dict> {
    map i: nat | g <= i < g + |arcs| && StartsAt(g, arcs, i) :: ArcsDict(ArcsFrom(g, arcs, i), lang)
  }

  /** How many arcs of a state look like states of their own. */
  ghost function Strays(arcs: seq<Arc>): nat {
    if |arcs| <= 1 then 0
    else Strays(arcs[..|arcs| - 1]) + (if arcs[|arcs| - 1].c == 0 then 1 else 0)
  }

  ghost function NewIds(g: nat, arcs: seq<Arc>): set<nat> {
    set i: nat | g <= i < g + |arcs| && StartsAt(g, arcs, i)
  }

  lemma {:induction false} NewIdsAre(g: nat, arcs: seq<Arc>)
    ensures NewStates(g, arcs).Keys == NewIds(g, arcs)
    ensures |NewStates(g, arcs)| == |NewIds(g, arcs)|
  {
    hide StartsAt, ArcsFrom;
    assert |NewStates(g, arcs)| == |NewStates(g, arcs).Keys|;
  }

  lemma {:induction false} NewIdsMore(g: nat, arcs: seq<Arc>)
    requires |arcs| > 1
    ensures var n := |arcs| - 1;
      NewIds(g, arcs) == NewIds(g, arcs[..n]) + (if arcs[n].c == 0 then {g + n} else {})
      && g + n !in NewIds(g, arcs[..n])
  {
    var n := |arcs| - 1;
    forall i: nat
      ensures g <= i < g + |arcs| && StartsAt(g, arcs, i)
        <==> (g <= i < g + n && StartsAt(g, arcs[..n], i)) || (i == g + n && arcs[n].c == 0)
    {
    }
    hide StartsAt;
  }

  lemma {:induction false} NewIdsSize(g: nat, arcs: seq<Arc>)
    requires arcs != []
    ensures |NewIds(g, arcs)| == 1 + Strays(arcs)
    decreases |arcs|
  {
    var n := |arcs| - 1;
    if n == 0 {
      assert StartsAt(g, arcs, g);
      hide StartsAt;
      assert NewIds(g, arcs) == {g};
    } else {
      NewIdsMore(g, arcs);
      hide NewIds;
      NewIdsSize(g, arcs[..n]);
    }
  }

  lemma {:induction false} StrictNoStrays(arcs: seq<Arc>)
    requires ArcsStrict(arcs)
    ensures Strays(arcs) == 0
    decreases |arcs|
  {
    if |arcs| > 1 {
      assert arcs[0].c < arcs[|arcs| - 1].c;
      StrictNoStrays(arcs[..|arcs| - 1]);
    }
  }

  /** A suffix of the arcs, read from its own first unit. */
  lemma {:induction false} SuffixState(units: seq<nat>, labels: seq<Byte>, g: nat, arcs: seq<Arc>, j: nat)
    requires StateAt(units, labels, g, arcs) && j < |arcs| && StartsAt(g, arcs, g + j)
    ensures StateAt(units, labels, g + j, arcs[j..])
  {
    var h, rest := g + j, arcs[j..];
    forall k | 0 <= k < |rest|
      ensures UnitAt(units, labels, h, rest, k)
    {
      assert UnitAt(units, labels, g, arcs, j + k);
    }
  }

  lemma {:induction false} SuffixOk(arcs: seq<Arc>, lang: map<nat, Dict>, g: nat, j: nat)
    requires ArcsOk(arcs, lang, g) && j < |arcs|
    ensures ArcsOk(arcs[j..], lang, g + j)
  {
    var rest := arcs[j..];
    forall k | 0 <= k < |rest|
      ensures ArcOk(rest[k], lang, g + j)
    {
      assert ArcOk(arcs[j + k], lang, g);
    }
  }

  /** What the units of a new state add to the graph. */
  lemma {:induction false} AppendState(units: seq<nat>, labels: seq<Byte>, groups: map<nat, seq<Arc>>,
                                       lang: map<nat, Dict>, arcs: seq<Arc>, units': seq<nat>, labels': seq<Byte>)
    requires Graph(units, labels, groups, lang) && ArcsOk(arcs, lang, |units|)
    requires units <= units' && labels <= labels' && |units'| == |labels'| == |units| + |arcs|
    requires StateAt(units', labels', |units|, arcs)
    ensures var g := |units|;
      && Grows(groups, groups + NewStates(g, arcs)) && Grows(lang, lang + NewMeanings(g, arcs, lang))
      && g in NewStates(g, arcs) && NewStates(g, arcs)[g] == arcs
      && (forall i :: i in NewStates(g, arcs) ==> i !in groups && i != 0)
      && Graph(units', labels', groups + NewStates(g, arcs), lang + NewMeanings(g, arcs, lang))
  {
    hide ArcsDict, ArcWord, UnitIsState, NulFree, ArcOk, StateAt;
    var g := |units|;
    var groups', lang' := groups + NewStates(g, arcs), lang + NewMeanings(g, arcs, lang);
    StatesInside(units, labels, groups, lang);
    assert arcs[0..] == arcs && StartsAt(g, arcs, g);
    hide StartsAt;
    assert NewStates(g, arcs).Keys == NewMeanings(g, arcs, lang).Keys;
    assert NewStates(g, arcs)[g] == ArcsFrom(g, arcs, g);
    forall x | x in groups'
      ensures StateOk(units', labels', groups', lang', x)
    {
      if x in groups {
        assert StateOk(units, labels, groups, lang, x);
        KeptState(units, labels, groups, lang, units', labels', groups', lang', x);
      } else {
        NewStateOk(units, labels, groups, lang, arcs, units', labels', groups', lang', x);
      }
    }
    forall i | 0 < i < |units'|
      ensures HeadUnitOk(units', labels', groups', i)
    {
      if i < |units| {
        assert HeadUnitOk(units, labels, groups, i);
      } else {
        NewHead(units', labels', arcs, g, i);
      }
    }
  }

  lemma {:induction false} NewStateOk(units: seq<nat>, labels: seq<Byte>, groups: map<nat, seq<Arc>>,
                                      lang: map<nat, Dict>, arcs: seq<Arc>, units': seq<nat>, labels': seq<Byte>,
                                      groups': map<nat, seq<Arc>>, lang': map<nat, Dict>, x: nat)
    requires Graph(units, labels, groups, lang) && ArcsOk(arcs, lang, |units|)
    requires StateAt(units', labels', |units|, arcs)
    requires Grows(lang, lang') && |units| <= x < |units| + |arcs| && StartsAt(|units|, arcs, x)
    requires x in groups' && groups'[x] == ArcsFrom(|units|, arcs, x)
    requires x in lang' && lang'[x] == ArcsDict(ArcsFrom(|units|, arcs, x), lang)
    ensures StateOk(units', labels', groups', lang', x)
  {
    hide ArcsDict, ArcWord, UnitIsState, NulFree, ArcOk, StateAt, Graph, StartsAt;
    var g, j := |units|, x - |units|;
    SuffixState(units', labels', g, arcs, j);
    SuffixOk(arcs, lang, g, j);
    ArcsOkKnown(arcs[j..], lang, x);
    ArcsDictFacts(units, labels, groups, lang, arcs[j..], x);
    ArcsDictStable(arcs[j..], lang, lang');
    ArcsOkGrows(arcs[j..], lang, lang', x);
  }

  lemma {:induction false} StatesInside(units: seq<nat>, labels: seq<Byte>, groups: map<nat, seq<Arc>>,
                                        lang: map<nat, Dict>)
    requires Graph(units, labels, groups, lang)
    ensures 0 < |units| == |labels|
    ensures forall g :: g in groups ==> 0 < g < |units|
  {
    hide ArcsDict, ArcWord, NulFree;
    forall g | g in groups
      ensures 0 < g < |units|
    {
      assert StateOk(units, labels, groups, lang, g);
    }
  }

  lemma {:induction false} ArcsOkGrows(arcs: seq<Arc>, lang: map<nat, Dict>, lang': map<nat, Dict>, g: nat)
    requires ArcsOk(arcs, lang, g) && Grows(lang, lang')
    ensures ArcsOk(arcs, lang', g)
  {
    forall j | 0 <= j < |arcs|
      ensures ArcOk(arcs[j], lang', g)
    {
      assert ArcOk(arcs[j], lang, g);
    }
  }

  lemma {:induction false} KeptState(units: seq<nat>, labels: seq<Byte>, groups: map<nat, seq<Arc>>,
                                     lang: map<nat, Dict>, units': seq<nat>, labels': seq<Byte>,
                                     groups': map<nat, seq<Arc>>, lang': map<nat, Dict>, x: nat)
    requires x in groups && x in lang && StateOk(units, labels, groups, lang, x)
    requires units <= units' && labels <= labels' && |units'| == |labels'|
    requires Grows(groups, groups') && Grows(lang, lang')
    ensures StateOk(units', labels', groups', lang', x)
  {
    hide ArcsDict, ArcWord, NulFree;
    ArcsOkKnown(groups[x], lang, x);
    ArcsDictStable(groups[x], lang, lang');
    ArcsOkGrows(groups[x], lang, lang', x);
    forall j | 0 <= j < |groups[x]|
      ensures UnitAt(units', labels', x, groups[x], j)
    {
      assert UnitAt(units, labels, x, groups[x], j);
    }
  }

  lemma {:induction false} NewHead(units: seq<nat>, labels: seq<Byte>, arcs: seq<Arc>, g: nat, i: nat)
    requires StateAt(units, labels, g, arcs) && g <= i < g + |arcs|
    ensures i in NewStates(g, arcs) <==> labels[i] == 0 || UnitIsState(units[i])
  {
    hide ArcWord, UnitIsState;
    assert UnitAt(units, labels, g, arcs, i - g);
    ReadArcWord(arcs[i - g], i == g, i - g + 1 < |arcs|);
  }

  /** The map of a state is not empty, and its keys are free of zero bytes. */
  lemma {:induction false} ArcsDictFacts(units: seq<nat>, labels: seq<Byte>, groups: map<nat, seq<Arc>>,
                                         lang: map<nat, Dict>, arcs: seq<Arc>, g: nat)
    requires Graph(units, labels, groups, lang) && ArcsOk(arcs, lang, g)
    ensures ArcsDict(arcs, lang) != map[] && NulFree(ArcsDict(arcs, lang))
  {
    hide ArcsDict, StateAt, NulFree, HeadUnitOk;
    var last := arcs[|arcs| - 1];
    assert arcs == arcs[..|arcs| - 1] + [last];
    ArcsDictAppend(arcs[..|arcs| - 1], last, lang);
    assert ArcOk(last, lang, g);
    if last.c != 0 {
      assert StateOk(units, labels, groups, lang, last.target);
      PrependNonempty(last.c, lang[last.target]);
    }
    EmptyKeyNulFree(last.target);
    assert ArcDict(last, lang) != map[];
    MergeNonempty(ArcsDict(arcs[..|arcs| - 1], lang), ArcDict(last, lang));
    forall i | 0 <= i < |arcs|
      ensures NulFree(ArcDict(arcs[i], lang))
    {
      assert ArcOk(arcs[i], lang, g);
      if arcs[i].c != 0 {
        assert StateOk(units, labels, groups, lang, arcs[i].target);
        PrependNulFree(arcs[i].c, lang[arcs[i].target]);
      } else {
        EmptyKeyNulFree(arcs[i].target);
      }
    }
    ArcsNulFree(arcs, lang);
  }

  lemma {:induction false} EmptyKeyNulFree(v: nat)
    ensures var d: Dict := map[[] := v]; NulFree(d) && d != map[]
  {
    var d: Dict := map[[] := v];
    assert [] in d;
  }

  lemma {:induction false} MergeNonempty(a: Dict, b: Dict)
    requires b != map[]
    ensures a + b != map[]
  {
    var k :| k in b;
    assert k in a + b;
  }

  lemma {:induction false} PrependNonempty(c: Byte, d: Dict)
    requires d != map[]
    ensures Prepend(c, d) != map[]
  {
    var k :| k in d;
    PrependMember(c, d, [c] + k);
    ConsKey(c, k);
    assert [c] + k in Prepend(c, d);
  }

  lemma {:induction false} PrependNulFree(c: Byte, d: Dict)
    requires c != 0 && NulFree(d)
    ensures NulFree(Prepend(c, d))
  {
    hide Prepend;
    forall k | k in Prepend(c, d)
      ensures NulFreeKey(k)
    {
      PrependMember(c, d, k);
      assert NulFreeKey(k[1..]);
      assert forall i :: 0 < i < |k| ==> k[i] == k[1..][i - 1];
    }
  }

  lemma {:induction false} ArcsNulFree(arcs: seq<Arc>, lang: map<nat, Dict>)
    requires forall i :: 0 <= i < |arcs| ==> NulFree(ArcDict(arcs[i], lang))
    ensures NulFree(ArcsDict(arcs, lang))
    decreases |arcs|
  {
    hide ArcDict;
    if arcs != [] {
      var n := |arcs|;
      var pre := arcs[..n - 1];
      assert NulFree(ArcDict(arcs[n - 1], lang));
      forall i | 0 <= i < |pre|
        ensures NulFree(ArcDict(pre[i], lang))
      {
        assert pre[i] == arcs[i];
      }
      ArcsNulFree(pre, lang);
    }
  }

  // Following an arc.

  /** Which keys that start with c the arcs spell. */
  ghost predicate ArcHas(arcs: seq<Arc>, lang: map<nat, Dict>, c: Byte, k: Key) {
    var d := ArcsDict(arcs, lang);
    && (NoArc(arcs, c) ==> [c] + k !in d)
    && forall j :: 0 <= j < |arcs| && arcs[j].c == c ==>
      && arcs[j].target in lang
      && ([c] + k in d <==> k in lang[arcs[j].target])
      && ([c] + k in d ==> d[[c] + k] == lang[arcs[j].target][k])
  }

  ghost predicate NoArc(arcs: seq<Arc>, c: Byte) {
    forall j :: 0 <= j < |arcs| ==> arcs[j].c != c
  }

  lemma {:induction false} ArcMember(a: Arc, lang: map<nat, Dict>, c: Byte, k: Key)
    requires c != 0 && ArcKnown(a, lang)
    ensures [c] + k in ArcDict(a, lang) <==> a.c == c && k in lang[a.target]
    ensures [c] + k in ArcDict(a, lang) ==> ArcDict(a, lang)[[c] + k] == lang[a.target][k]
  {
    hide Prepend;
    if a.c != 0 {
      PrependMember(a.c, lang[a.target], [c] + k);
      ConsKey(c, k);
    }
  }

  lemma {:induction false} ArcsMember(arcs: seq<Arc>, lang: map<nat, Dict>, c: Byte, k: Key)
    requires ArcsAscend(arcs) && ArcsKnown(arcs, lang) && c != 0
    ensures ArcHas(arcs, lang, c, k)
    decreases |arcs|
  {
    hide ArcDict, ArcKnown;
    if arcs != [] {
      var n := |arcs|;
      var pre, last := arcs[..n - 1], arcs[n - 1];
      ArcsMember(pre, lang, c, k);
      ArcMember(last, lang, c, k);
      forall j | 0 <= j < n && arcs[j].c == c
        ensures arcs[j].target in lang
      {
        assert ArcKnown(arcs[j], lang);
        KnownTarget(arcs[j], lang);
      }
      assert forall j :: 0 <= j < n - 1 ==> pre[j] == arcs[j];
      if last.c == c {
        assert forall j :: 0 <= j < n - 1 ==> LabelBefore(arcs[j].c, last.c);
        assert NoArc(pre, c);
      }
    }
  }

  lemma {:induction false} KnownTarget(a: Arc, lang: map<nat, Dict>)
    requires ArcKnown(a, lang) && a.c != 0
    ensures a.target in lang
  {
  }

  /** After the byte of an arc, a state's map is that of the arc's target. */
  lemma {:induction false} ArcsAfter(arcs: seq<Arc>, lang: map<nat, Dict>, c: Byte)
    requires ArcsAscend(arcs) && ArcsKnown(arcs, lang) && c != 0
    ensures NoArc(arcs, c) ==> After(ArcsDict(arcs, lang), c) == map[]
    ensures forall j :: 0 <= j < |arcs| && arcs[j].c == c ==>
      arcs[j].target in lang && After(ArcsDict(arcs, lang), c) == lang[arcs[j].target]
  {
    hide ArcsDict, ArcsAscend, ArcsKnown;
    var d := ArcsDict(arcs, lang);
    AfterMembers(d, c);
    hide After;
    forall k
      ensures ArcHas(arcs, lang, c, k)
    {
      ArcsMember(arcs, lang, c, k);
    }
    if NoArc(arcs, c) {
      forall k
        ensures k !in After(d, c)
      {
        assert ArcHas(arcs, lang, c, k);
      }
      assert After(d, c) == map[];
    }
    forall j | 0 <= j < |arcs| && arcs[j].c == c
      ensures arcs[j].target in lang && After(d, c) == lang[arcs[j].target]
    {
      assert ArcHas(arcs, lang, c, []);
      var t := lang[arcs[j].target];
      forall k
        ensures k in After(d, c) <==> k in t
        ensures k in After(d, c) && k in t ==> After(d, c)[k] == t[k]
      {
        assert ArcHas(arcs, lang, c, k);
      }
      SameDict(After(d, c), t);
    }
  }

  /** The value of the last arc labelled 0, if there is one. */
  function LeafTarget(arcs: seq<Arc>): nat {
    if arcs == [] then 0
    else if arcs[|arcs| - 1].c == 0 then arcs[|arcs| - 1].target
    else LeafTarget(arcs[..|arcs| - 1])
  }

  /** The empty key is there exactly when the first arc is labelled 0, and the last such arc has its value. */
  lemma {:induction false} ArcsLeaf(arcs: seq<Arc>, lang: map<nat, Dict>)
    requires arcs != [] && ArcsAscend(arcs)
    ensures [] in ArcsDict(arcs, lang) <==> arcs[0].c == 0
    ensures arcs[0].c == 0 ==> ArcsDict(arcs, lang)[[]] == LeafTarget(arcs)
    decreases |arcs|
  {
    hide Prepend;
    var n := |arcs|;
    var pre, last := arcs[..n - 1], arcs[n - 1];
    if last.c != 0 && last.target in lang {
      PrependMember(last.c, lang[last.target], []);
    }
    if n > 1 {
      ArcsLeaf(pre, lang);
      assert LabelBefore(arcs[0].c, last.c);
    }
  }

  /** The labels of a state's arcs are the labels of its map. */
  lemma {:induction false} StateLabels(units: seq<nat>, labels: seq<Byte>, groups: map<nat, seq<Arc>>,
                                       lang: map<nat, Dict>, g: nat, c: Byte)
    requires Graph(units, labels, groups, lang) && g in groups && g in lang
    ensures HasLabel(lang[g], c) <==> exists j :: 0 <= j < |groups[g]| && groups[g][j].c == c
  {
    hide ArcsDict, StateAt, After, HeadUnitOk;
    var arcs := groups[g];
    assert StateOk(units, labels, groups, lang, g);
    ArcsOkKnown(arcs, lang, g);
    if c == 0 {
      ArcsLeaf(arcs, lang);
    } else {
      ArcsAfter(arcs, lang, c);
      forall j | 0 <= j < |arcs| && arcs[j].c == c
        ensures lang[arcs[j].target] != map[]
      {
        assert ArcOk(arcs[j], lang, g);
        assert StateOk(units, labels, groups, lang, arcs[j].target);
      }
    }
  }

  // Minimality.

  /** No two of the states have the same arcs. */
  ghost predicate Minimal(groups: map<nat, seq<Arc>>, states: set<nat>) {
    forall a, b :: a in states && b in states && a in groups && b in groups && groups[a] == groups[b] ==> a == b
  }

  /** No state has a label twice. */
  ghost predicate AllStrict(groups: map<nat, seq<Arc>>) {
    forall g :: g in groups ==> ArcsStrict(groups[g])
  }

  function Front(a: seq<Arc>): seq<Arc>
    requires a != []
  {
    a[..|a| - 1]
  }

  function Last(a: seq<Arc>): Arc
    requires a != []
  {
    a[|a| - 1]
  }

  ghost predicate SameMembers(a: seq<Arc>, b: seq<Arc>) {
    forall x :: x in a <==> x in b
  }

  lemma {:induction false} FrontMember(a: seq<Arc>, x: Arc)
    requires a != [] && ArcsStrict(a)
    ensures x in Front(a) <==> x in a && x != Last(a)
    ensures ArcsStrict(Front(a)) && a == Front(a) + [Last(a)] && Last(a) in a
  {
    if x in Front(a) {
      var i :| 0 <= i < |a| - 1 && Front(a)[i] == x;
      assert a[i] == x;
    }
    if x in a && x != Last(a) {
      var i :| 0 <= i < |a| && a[i] == x;
      assert Front(a)[i] == x;
    }
  }

  lemma {:induction false} LastArc(a: seq<Arc>, b: seq<Arc>)
    requires a != [] && b != [] && ArcsStrict(a) && ArcsStrict(b)
    requires Last(a) in b && Last(b) in a
    ensures Last(a) == Last(b)
  {
    var i :| 0 <= i < |b| && b[i] == Last(a);
    var j :| 0 <= j < |a| && a[j] == Last(b);
  }

  /** Increasing lists with the same members are the same list. */
  lemma {:induction false} SameArcs(a: seq<Arc>, b: seq<Arc>)
    requires ArcsStrict(a) && ArcsStrict(b) && SameMembers(a, b)
    ensures a == b
    decreases |a|
  {
    if a == [] || b == [] {
      FirstIn(a);
      FirstIn(b);
    } else {
      hide ArcsStrict, Front, Last;
      FrontMember(a, Last(a));
      FrontMember(b, Last(b));
      LastArc(a, b);
      forall x
        ensures x in Front(a) <==> x in Front(b)
      {
        FrontMember(a, x);
        FrontMember(b, x);
      }
      assert |Front(a)| < |a|;
      SameArcs(Front(a), Front(b));
    }
  }

  lemma {:induction false} FirstIn(a: seq<Arc>)
    ensures a != [] ==> a[0] in a
  {
  }

  /** Every arc of a is an arc of b when both states mean the same. */
  lemma {:induction false} ArcShared(units: seq<nat>, labels: seq<Byte>, groups: map<nat, seq<Arc>>,
                                     lang: map<nat, Dict>, a: nat, b: nat, j: nat)
    requires Graph(units, labels, groups, lang) && Minimal(groups, groups.Keys) && AllStrict(groups)
    requires a in groups && b in groups && a in lang && b in lang && lang[a] == lang[b]
    requires j < |groups[a]|
    ensures groups[a][j] in groups[b]
    decreases a + b, 0
  {
    hide ArcsDict, StateAt, After, HeadUnitOk, HasLabel, NulFree, Minimal, LeafTarget;
    var arc := groups[a][j];
    assert StateOk(units, labels, groups, lang, a);
    assert StateOk(units, labels, groups, lang, b);
    StateLabels(units, labels, groups, lang, a, arc.c);
    StateLabels(units, labels, groups, lang, b, arc.c);
    var i :| 0 <= i < |groups[b]| && groups[b][i].c == arc.c;
    ArcsOkKnown(groups[a], lang, a);
    ArcsOkKnown(groups[b], lang, b);
    if arc.c == 0 {
      FirstArc(groups[a], j);
      FirstArc(groups[b], i);
      ArcsLeaf(groups[a], lang);
      ArcsLeaf(groups[b], lang);
      OneLeaf(groups[a]);
      OneLeaf(groups[b]);
    } else {
      ArcsAfter(groups[a], lang, arc.c);
      ArcsAfter(groups[b], lang, arc.c);
      assert ArcOk(arc, lang, a) && ArcOk(groups[b][i], lang, b);
      StateOfMeaning(units, labels, groups, lang, arc.target, groups[b][i].target);
    }
  }

  lemma {:induction false} FirstArc(arcs: seq<Arc>, j: nat)
    requires ArcsStrict(arcs) && j < |arcs|
    ensures arcs[j].c == 0 ==> j == 0
  {
    assert 0 < j ==> arcs[0].c < arcs[j].c;
  }

  lemma {:induction false} OneLeaf(arcs: seq<Arc>)
    requires ArcsStrict(arcs) && arcs != []
    ensures arcs[0].c == 0 ==> LeafTarget(arcs) == arcs[0].target
    decreases |arcs|
  {
    var n := |arcs|;
    if n > 1 {
      assert arcs[0].c < arcs[n - 1].c;
      OneLeaf(arcs[..n - 1]);
    }
  }

  /**
    In a minimal graph there is one state for each meaning: two states from which
    the same suffixes lead to the same values are the same state.
   */
  lemma {:induction false} StateOfMeaning(units: seq<nat>, labels: seq<Byte>, groups: map<nat, seq<Arc>>,
                                          lang: map<nat, Dict>, a: nat, b: nat)
    requires Graph(units, labels, groups, lang) && Minimal(groups, groups.Keys) && AllStrict(groups)
    requires a in groups && b in groups && a in lang && b in lang && lang[a] == lang[b]
    ensures a == b
    decreases a + b, 1
  {
    forall x
      ensures x in groups[a] <==> x in groups[b]
    {
      if x in groups[a] {
        var j :| 0 <= j < |groups[a]| && groups[a][j] == x;
        ArcShared(units, labels, groups, lang, a, b, j);
      }
      if x in groups[b] {
        var j :| 0 <= j < |groups[b]| && groups[b][j] == x;
        ArcShared(units, labels, groups, lang, b, a, j);
      }
    }
    hide ArcsDict, StateAt, HeadUnitOk, NulFree;
    assert StateOk(units, labels, groups, lang, a);
    assert StateOk(units, labels, groups, lang, b);
    SameArcs(groups[a], groups[b]);
  }

  // Hashing.

  // The steps of the mixing function, on 32-bit words.

  /** ~x + (x << 15) */
  function Spread(x: nat): (y: nat)
    ensures y < TWO_32
  {
    (TWO_32 - 1 - x % TWO_32 + x * 0x8000) % TWO_32
  }

  /** x + (x << 2) */
  function Fivefold(x: nat): (y: nat)
    ensures y < TWO_32
  {
    (x + x * 4) % TWO_32
  }

  function Product(x: nat): (y: nat)
    ensures y < TWO_32
  {
    x * 2057 % TWO_32
  }

  /** x combined with its upper digits. */
  function Mixed(x: nat, d: nat): nat
    requires d > 0
  {
    Xor(x, x / d)
  }

  /** The mixing function. */
  function Hash(key: nat): nat {
    Mixed(Product(Mixed(Fivefold(Mixed(Spread(key), 0x1000)), 16)), 0x1_0000)
  }

  lemma {:induction false} RemainderIs(v: int, q: int, r: int)
    requires v == TWO_32 * q + r && 0 <= r < TWO_32
    ensures v % TWO_32 == r
  {
  }

  /** Multiplying by an odd number is undone by multiplying by another one. */
  lemma {:induction false} SpreadUndone(x: nat)
    requires x < TWO_32
    ensures (Spread(x) + 1) * 0xBFFF_7FFF % TWO_32 == x
  {
    RemainderIs((Spread(x) + 1) * 0xBFFF_7FFF,
                x * 24575 + 0xBFFF_7FFF - (TWO_32 - 1 - x + x * 0x8000) / TWO_32 * 0xBFFF_7FFF, x);
  }

  lemma {:induction false} FivefoldUndone(x: nat)
    requires x < TWO_32
    ensures Fivefold(x) * 0xCCCC_CCCD % TWO_32 == x
  {
    RemainderIs(Fivefold(x) * 0xCCCC_CCCD, x * 4 - (x + x * 4) / TWO_32 * 0xCCCC_CCCD, x);
  }

  lemma {:induction false} ProductUndone(x: nat)
    requires x < TWO_32
    ensures Product(x) * 0xC8DE_0639 % TWO_32 == x
  {
    RemainderIs(Product(x) * 0xC8DE_0639, x * 1614 - x * 2057 / TWO_32 * 0xC8DE_0639, x);
  }

  lemma {:induction false} ProductsInjective(x: nat, y: nat)
    requires x < TWO_32 && y < TWO_32
    ensures Spread(x) == Spread(y) ==> x == y
    ensures Fivefold(x) == Fivefold(y) ==> x == y
    ensures Product(x) == Product(y) ==> x == y
  {
    hide Spread, Fivefold, Product;
    SpreadUndone(x);
    SpreadUndone(y);
    FivefoldUndone(x);
    FivefoldUndone(y);
    ProductUndone(x);
    ProductUndone(y);
  }

  function Shifted(x: nat, k: nat): (y: nat)
    ensures y <= x && (0 < x && 0 < k ==> y < x)
    decreases k
  {
    if k == 0 then x else Shifted(x / 2, k - 1)
  }

  lemma {:induction false} XorShifted(a: nat, b: nat, k: nat)
    ensures Shifted(Xor(a, b), k) == Xor(Shifted(a, k), Shifted(b, k))
    decreases k
  {
    hide Xor;
    if k > 0 {
      XorDigit(a, b);
      XorShifted(a / 2, b / 2, k - 1);
    }
  }

  /** A number that is combined with its upper digits can be recovered. */
  lemma {:induction false} XorShiftInjective(a: nat, b: nat, k: nat)
    requires 0 < k && Xor(a, Shifted(a, k)) == Xor(b, Shifted(b, k))
    ensures a == b
    decreases a + b
  {
    hide Xor, Shifted;
    if a != 0 || b != 0 {
      var u, v := Shifted(a, k), Shifted(b, k);
      XorShifted(a, u, k);
      XorShifted(b, v, k);
      XorShiftInjective(u, v, k);
      XorCommutes(a, u);
      XorCommutes(b, v);
      XorCancels(u, a);
      XorCancels(v, b);
    }
  }

  lemma {:induction false} ShiftedTwice(x: nat, j: nat, k: nat)
    ensures Shifted(x, j + k) == Shifted(Shifted(x, j), k)
    decreases j
  {
    if j > 0 {
      ShiftedTwice(x / 2, j - 1, k);
    }
  }

  lemma {:induction false} ShiftedFour(x: nat)
    ensures Shifted(x, 4) == x / 16
  {
    assert Shifted(x, 4) == Shifted(x / 2, 3) == Shifted(x / 2 / 2, 2);
    assert Shifted(x / 2 / 2, 2) == x / 2 / 2 / 2 / 2;
  }

  lemma {:induction false} ShiftedBy(x: nat)
    ensures Shifted(x, 4) == x / 16 && Shifted(x, 12) == x / 0x1000 && Shifted(x, 16) == x / 0x1_0000
  {
    hide Shifted;
    ShiftedFour(x);
    ShiftedFour(x / 16);
    ShiftedFour(x / 16 / 16);
    ShiftedFour(x / 16 / 16 / 16);
    ShiftedTwice(x, 4, 4);
    ShiftedTwice(x, 8, 4);
    ShiftedTwice(x, 12, 4);
  }

  lemma {:induction false} BelowTwo32(x: nat, y: nat)
    requires x < TWO_32 && y < TWO_32
    ensures Xor(x, y) < TWO_32
  {
    hide Xor, Join;
    assert Pow2(8) == 0x100 && Pow2(16) == 0x1_0000 && Pow2(24) == 0x100_0000 && Pow2(32) == TWO_32;
    XorJoined(32, 0, x, 0, y);
  }

  /** The mixing function maps different words to different words. */
  lemma {:induction false} HashInjective(a: nat, b: nat)
    requires a < TWO_32 && b < TWO_32 && Hash(a) == Hash(b)
    ensures a == b
  {
    hide Mixed, Spread, Fivefold, Product;
    var a1, b1 := Spread(a), Spread(b);
    var a2, b2 := Mixed(a1, 0x1000), Mixed(b1, 0x1000);
    var a3, b3 := Fivefold(a2), Fivefold(b2);
    var a4, b4 := Mixed(a3, 16), Mixed(b3, 16);
    MixInjective(Product(a4), Product(b4));
    MixInjective(a3, b3);
    MixInjective(a1, b1);
    ProductsInjective(a4, b4);
    ProductsInjective(a2, b2);
    ProductsInjective(a, b);
  }

  lemma {:induction false} MixInjective(x: nat, y: nat)
    requires x < TWO_32 && y < TWO_32
    ensures Mixed(x, 16) < TWO_32 && Mixed(x, 0x1000) < TWO_32 && Mixed(y, 16) < TWO_32 && Mixed(y, 0x1000) < TWO_32
    ensures Mixed(x, 16) == Mixed(y, 16) ==> x == y
    ensures Mixed(x, 0x1000) == Mixed(y, 0x1000) ==> x == y
    ensures Mixed(x, 0x1_0000) == Mixed(y, 0x1_0000) ==> x == y
  {
    hide Xor, Shifted;
    BelowTwo32(x, x / 16);
    BelowTwo32(x, x / 0x1000);
    BelowTwo32(y, y / 16);
    BelowTwo32(y, y / 0x1000);
    ShiftedBy(x);
    ShiftedBy(y);
    if Mixed(x, 16) == Mixed(y, 16) {
      XorShiftInjective(x, y, 4);
    }
    if Mixed(x, 0x1000) == Mixed(y, 0x1000) {
      XorShiftInjective(x, y, 12);
    }
    if Mixed(x, 0x1_0000) == Mixed(y, 0x1_0000) {
      XorShiftInjective(x, y, 16);
    }
  }

  /** What one arc contributes to the hash of its state. */
  function ArcHash(c: Byte, word: nat): nat {
    Hash(Xor(c * 0x100_0000, word))
  }

  function ArcHashes(arcs: seq<Arc>): (r: seq<nat>)
    ensures |r| == |arcs|
    ensures forall j :: 0 <= j < |arcs| ==> r[j] == ArcHash(arcs[j].c, ArcWord(arcs[j], j == 0, j + 1 < |arcs|))
  {
    seq(|arcs|, j requires 0 <= j < |arcs| => ArcHash(arcs[j].c, ArcWord(arcs[j], j == 0, j + 1 < |arcs|)))
  }

  function XorAll(s: seq<nat>): nat {
    if s == [] then 0 else Xor(XorAll(s[..|s| - 1]), s[|s| - 1])
  }

  function StateHash(arcs: seq<Arc>): nat {
    XorAll(ArcHashes(arcs))
  }

  /** Reading the arcs from the last to the first gives the same hash. */
  lemma {:induction false} XorBackwards(s: seq<nat>, j: nat, acc: nat)
    requires 0 < j <= |s| && Xor(acc, XorAll(s[..j])) == XorAll(s)
    ensures Xor(Xor(acc, s[j - 1]), XorAll(s[..j - 1])) == XorAll(s)
  {
    hide Xor;
    assert s[..j][..j - 1] == s[..j - 1];
    XorAssociates(acc, s[j - 1], XorAll(s[..j - 1]));
    XorCommutes(s[j - 1], XorAll(s[..j - 1]));
  }

  lemma {:induction false} XorForwards(s: seq<nat>, j: nat)
    requires j < |s|
    ensures XorAll(s[..j + 1]) == Xor(XorAll(s[..j]), s[j])
  {
    assert s[..j + 1][..j] == s[..j];
  }
}
