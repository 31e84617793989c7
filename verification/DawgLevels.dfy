/**
  The meaning of a word graph under construction.

  A frozen state is a list of arcs in increasing label order; an arc labelled 0
  carries a value, any other leads to a frozen state. A key given again can add
  another arc labelled 0, and then the last of these counts. Above the frozen states
  lies the path of the last key: a list of levels, each with the arcs that are
  already closed and the label of the one that is still open.
 */
module DawgLevels {
  import opened Dictionary

  datatype Arc = Arc(c: Byte, target: nat)

  datatype Level = Level(closed: seq<Arc>, label_: Byte)

  ghost predicate ArcKnown(a: Arc, lang: map<nat, Dict>) {
    a.c != 0 ==> a.target in lang
  }

  ghost predicate ArcsKnown(arcs: seq<Arc>, lang: map<nat, Dict>) {
    forall i :: 0 <= i < |arcs| ==> ArcKnown(arcs[i], lang)
  }

  /** The order of labels in a state: increasing, but for several zeros at the front. */
  predicate LabelBefore(a: Byte, b: Byte) {
    a < b || (a == 0 && b == 0)
  }

  ghost predicate ArcsAscend(arcs: seq<Arc>) {
    forall i, j :: 0 <= i < j < |arcs| ==> LabelBefore(arcs[i].c, arcs[j].c)
  }

  /** Every label occurs once. */
  ghost predicate ArcsStrict(arcs: seq<Arc>) {
    forall i, j :: 0 <= i < j < |arcs| ==> arcs[i].c < arcs[j].c
  }

  /** The keys behind one arc. */
  ghost function ArcDict(a: Arc, lang: map<nat, Dict>): Dict {
    if a.c == 0 then map[[] := a.target]
    else if a.target in lang then Prepend(a.c, lang[a.target])
    else map[]
  }

  ghost function ArcsDict(arcs: seq<Arc>, lang: map<nat, Dict>): Dict {
    if arcs == [] then map[]
    else ArcsDict(arcs[..|arcs| - 1], lang) + ArcDict(arcs[|arcs| - 1], lang)
  }

  /** The arcs of the level, with its open arc closed on `target`. */
  function Group(l: Level, target: nat): seq<Arc> {
    l.closed + [Arc(l.label_, target)]
  }

  /** All keys: those behind closed arcs, and those behind the path, which leads to `top`. */
  ghost function Total(levels: seq<Level>, top: Dict, lang: map<nat, Dict>): Dict {
    if levels == [] then top
    else
      var l := levels[|levels| - 1];
      Total(levels[..|levels| - 1], ArcsDict(l.closed, lang) + Prepend(l.label_, top), lang)
  }

  /** The keys of all levels, the last one being closed on `target`. */
  ghost function Meaning(levels: seq<Level>, target: nat, lang: map<nat, Dict>): Dict {
    if levels == [] then map[]
    else Total(levels[..|levels| - 1], ArcsDict(Group(levels[|levels| - 1], target), lang), lang)
  }

  function Path(levels: seq<Level>): Key {
    if levels == [] then [] else Path(levels[..|levels| - 1]) + [levels[|levels| - 1].label_]
  }

  lemma {:induction false} PathLength(levels: seq<Level>)
    ensures |Path(levels)| == |levels|
    ensures forall i :: 0 <= i < |levels| ==> Path(levels)[i] == levels[i].label_
    decreases |levels|
  {
    if levels != [] {
      PathLength(levels[..|levels| - 1]);
    }
  }

  /** Closed arcs come before the open one. */
  ghost predicate LevelOk(l: Level, lang: map<nat, Dict>) {
    && ArcsKnown(l.closed, lang)
    && ArcsAscend(l.closed)
    && (l.closed != [] ==> LabelBefore(l.closed[|l.closed| - 1].c, l.label_))
  }

  ghost predicate LevelsOk(levels: seq<Level>, lang: map<nat, Dict>) {
    forall i :: 0 <= i < |levels| ==> LevelOk(levels[i], lang)
  }

  lemma {:induction false} ArcsDictAppend(arcs: seq<Arc>, a: Arc, lang: map<nat, Dict>)
    ensures ArcsDict(arcs + [a], lang) == ArcsDict(arcs, lang) + ArcDict(a, lang)
  {
    assert (arcs + [a])[..|arcs|] == arcs;
  }

  /** More frozen states change nothing for arcs that are known already. */
  lemma {:induction false} ArcsDictStable(arcs: seq<Arc>, lang: map<nat, Dict>, lang': map<nat, Dict>)
    requires ArcsKnown(arcs, lang)
    requires forall g :: g in lang ==> g in lang' && lang'[g] == lang[g]
    ensures ArcsKnown(arcs, lang') && ArcsDict(arcs, lang') == ArcsDict(arcs, lang)
    decreases |arcs|
  {
    forall i | 0 <= i < |arcs|
      ensures ArcKnown(arcs[i], lang')
    {
      assert ArcKnown(arcs[i], lang);
    }
    if arcs != [] {
      ArcsDictStable(arcs[..|arcs| - 1], lang, lang');
    }
  }

  lemma {:induction false} TotalStable(levels: seq<Level>, top: Dict, lang: map<nat, Dict>, lang': map<nat, Dict>)
    requires LevelsOk(levels, lang)
    requires forall g :: g in lang ==> g in lang' && lang'[g] == lang[g]
    ensures LevelsOk(levels, lang') && Total(levels, top, lang') == Total(levels, top, lang)
    decreases |levels|
  {
    if levels != [] {
      var l := levels[|levels| - 1];
      assert LevelOk(l, lang);
      ArcsDictStable(l.closed, lang, lang');
      TotalStable(levels[..|levels| - 1], ArcsDict(l.closed, lang) + Prepend(l.label_, top), lang, lang');
    }
  }

  /** Closing the last level on a state with its meaning leaves all keys as they were. */
  lemma {:induction false} FreezeMeaning(levels: seq<Level>, target: nat, lang: map<nat, Dict>, g: nat)
    requires |levels| >= 2 && g in lang
    requires lang[g] == ArcsDict(Group(levels[|levels| - 1], target), lang)
    requires levels[|levels| - 2].label_ != 0
    ensures Meaning(levels[..|levels| - 1], g, lang) == Meaning(levels, target, lang)
  {
    var n := |levels|;
    var upper, l := levels[..n - 1], levels[n - 2];
    assert upper[..n - 2] == levels[..n - 2] && upper[n - 2] == l;
    ArcsDictAppend(l.closed, Arc(l.label_, g), lang);
  }

  /** Adding one key under the path. */
  lemma {:induction false} TotalUpdate(levels: seq<Level>, top: Dict, lang: map<nat, Dict>, k: Key, v: nat)
    ensures Total(levels, top[k := v], lang) == Total(levels, top, lang)[Path(levels) + k := v]
    decreases |levels|
  {
    hide ArcsDict, Prepend;
    if levels == [] {
      assert [] + k == k;
    } else {
      var l, upper := levels[|levels| - 1], levels[..|levels| - 1];
      var closed := ArcsDict(l.closed, lang);
      PrependUpdate(l.label_, top, k, v);
      MergeUpdate(closed, Prepend(l.label_, top), [l.label_] + k, v);
      TotalUpdate(upper, closed + Prepend(l.label_, top), lang, [l.label_] + k, v);
      assert Path(upper) + ([l.label_] + k) == Path(levels) + k;
    }
  }

  lemma {:induction false} MergeUpdate(a: Dict, b: Dict, k: Key, v: nat)
    ensures a + b[k := v] == (a + b)[k := v]
  {
  }

  lemma {:induction false} PrependUpdate(c: Byte, d: Dict, k: Key, v: nat)
    ensures Prepend(c, d[k := v]) == Prepend(c, d)[[c] + k := v]
  {
    hide Prepend;
    var a, b := Prepend(c, d[k := v]), Prepend(c, d)[[c] + k := v];
    PrependMembers(c, d[k := v]);
    PrependMembers(c, d);
    forall x
      ensures x in a <==> x in b
      ensures x in a ==> a[x] == b[x]
    {
      if |x| > 0 && x[0] == c {
        UnconsKey(x);
        assert x == [c] + k <==> x[1..] == k by { ConsKey(c, k); }
      }
    }
    SameDict(a, b);
  }

  /** A nonempty key of a state starts with the label of an arc to another state. */
  lemma {:induction false} ArcsDictHead(arcs: seq<Arc>, lang: map<nat, Dict>, k: Key)
    requires k in ArcsDict(arcs, lang) && k != []
    ensures k[0] != 0 && exists i :: 0 <= i < |arcs| && arcs[i].c == k[0]
    decreases |arcs|
  {
    var last := arcs[|arcs| - 1];
    if k in ArcDict(last, lang) {
      if last.c != 0 {
        PrependMember(last.c, lang[last.target], k);
      }
    } else {
      ArcsDictHead(arcs[..|arcs| - 1], lang, k);
      var i :| 0 <= i < |arcs| - 1 && arcs[..|arcs| - 1][i].c == k[0];
      assert arcs[i].c == k[0];
    }
  }

  /** A key that follows the path is a key of what the path leads to. */
  lemma {:induction false} TotalPath(levels: seq<Level>, top: Dict, lang: map<nat, Dict>, k: Key)
    requires LevelsOk(levels, lang)
    ensures Path(levels) + k in Total(levels, top, lang) <==> k in top
    ensures k in top ==> Total(levels, top, lang)[Path(levels) + k] == top[k]
    decreases |levels|
  {
    hide ArcsDict, Prepend, ArcsKnown;
    if levels == [] {
      assert [] + k == k;
    } else {
      var l, upper := levels[|levels| - 1], levels[..|levels| - 1];
      var closed := ArcsDict(l.closed, lang);
      var k' := [l.label_] + k;
      assert LevelOk(l, lang);
      TotalPath(upper, closed + Prepend(l.label_, top), lang, k');
      assert Path(upper) + k' == Path(levels) + k;
      PrependMember(l.label_, top, k');
      ConsKey(l.label_, k);
      if k' in closed {
        ArcsDictHead(l.closed, lang, k');
      }
    }
  }

  /** What the path leads to is what is left of all keys after its bytes. */
  lemma {:induction false} TotalAfter(levels: seq<Level>, top: Dict, lang: map<nat, Dict>)
    requires LevelsOk(levels, lang)
    ensures AfterAll(Total(levels, top, lang), Path(levels)) == top
  {
    hide Total, Path, AfterAll, LevelsOk;
    var all, s := Total(levels, top, lang), Path(levels);
    forall k
      ensures k in AfterAll(all, s) <==> k in top
      ensures k in top && k in AfterAll(all, s) ==> AfterAll(all, s)[k] == top[k]
    {
      TotalPath(levels, top, lang, k);
      AfterAllMember(all, s, k);
    }
    SameDict(AfterAll(all, s), top);
  }

  /** The levels of a suffix that shares nothing with earlier keys. */
  function Fresh(s: Key): (r: seq<Level>)
    ensures |r| == |s|
    ensures forall i :: 0 <= i < |s| ==> r[i] == Level([], s[i])
  {
    if s == [] then [] else Fresh(s[..|s| - 1]) + [Level([], s[|s| - 1])]
  }

  lemma {:induction false} FreshAppend(s: Key, c: Byte)
    ensures Fresh(s + [c]) == Fresh(s) + [Level([], c)]
  {
    assert (s + [c])[..|s|] == s;
  }

  lemma {:induction false} SinglePrepend(c: Byte, s: Key, v: nat)
    ensures ArcsDict([], map[]) + Prepend(c, map[s := v]) == map[[c] + s := v]
  {
    var a, b := Prepend(c, map[s := v]), map[[c] + s := v];
    PrependMembers(c, map[s := v]);
    ConsKey(c, s);
    forall x
      ensures x in a <==> x in b
      ensures x in a && x in b ==> a[x] == b[x]
    {
      if |x| > 0 {
        UnconsKey(x);
      }
    }
    SameDict(a, b);
    assert map[] + a == a;
  }

  lemma {:induction false} TotalFresh(levels: seq<Level>, s: Key, t: Key, v: nat, lang: map<nat, Dict>)
    ensures Total(levels + Fresh(s), map[t := v], lang) == Total(levels, map[s + t := v], lang)
    decreases |s|
  {
    hide ArcsDict, Prepend;
    if s == [] {
      assert levels + Fresh(s) == levels;
      assert s + t == t;
    } else {
      var n := |s|;
      var before, l := s[..n - 1], Level([], s[n - 1]);
      var all := levels + Fresh(s);
      assert all[..|all| - 1] == levels + Fresh(before) && all[|all| - 1] == l;
      SinglePrepend(l.label_, t, v);
      NoArcs(lang);
      TotalFresh(levels, before, [l.label_] + t, v, lang);
      assert before + ([l.label_] + t) == s + t;
    }
  }

  lemma {:induction false} NoArcs(lang: map<nat, Dict>)
    ensures ArcsDict([], lang) == map[] == ArcsDict([], map[])
  {
  }

  /** A path that ends in a fresh terminator has the keys of its upper levels and the one it spells. */
  lemma {:induction false} FreshMeaning(levels: seq<Level>, s: Key, v: nat, lang: map<nat, Dict>)
    ensures Meaning(levels + Fresh(s + [0]), v, lang) == Total(levels, map[s := v], lang)
  {
    hide Total, Fresh;
    FreshAppend(s, 0);
    var all := levels + Fresh(s + [0]);
    var n := |all|;
    assert all[..n - 1] == levels + Fresh(s) && all[n - 1] == Level([], 0);
    assert Group(all[n - 1], v) == [Arc(0, v)];
    ArcsDictAppend([], Arc(0, v), lang);
    NoArcs(lang);
    assert [] + [Arc(0, v)] == [Arc(0, v)];
    var leaf: Dict := map[[] := v];
    assert map[] + leaf == leaf;
    TotalFresh(levels, s, [], v, lang);
    assert s + [] == s;
  }

  /** The first key of a graph. */
  lemma {:induction false} FirstKeyMeaning(key: Key, v: nat, lang: map<nat, Dict>)
    ensures Meaning(Fresh(key + [0]), v, lang) == map[key := v]
  {
    FreshMeaning([], key, v, lang);
    assert [] + Fresh(key + [0]) == Fresh(key + [0]);
  }

  /**
    Closing the last level and opening a new arc c there, followed by the fresh
    bytes s and the terminator, adds exactly the key that path spells.
   */
  lemma {:induction false} BranchMeaning(levels: seq<Level>, target: nat, c: Byte, s: Key, v: nat, lang: map<nat, Dict>)
    requires levels != []
    ensures var n := |levels|;
      var branch := Level(Group(levels[n - 1], target), c);
      Meaning(levels[..n - 1] + [branch] + Fresh(s + [0]), v, lang)
        == Meaning(levels, target, lang)[Path(levels[..n - 1]) + [c] + s := v]
  {
    hide ArcsDict, Prepend, Fresh, Group;
    var n := |levels|;
    var upper, closed := levels[..n - 1], Group(levels[n - 1], target);
    var open := upper + [Level(closed, c)];
    FreshMeaning(open, s, v, lang);
    assert open[..n - 1] == upper && open[n - 1] == Level(closed, c);
    SinglePrepend(c, s, v);
    NoArcs(lang);
    assert map[] + Prepend(c, map[s := v]) == Prepend(c, map[s := v]);
    assert ArcsDict(closed, lang) + map[[c] + s := v] == ArcsDict(closed, lang)[[c] + s := v];
    TotalUpdate(upper, ArcsDict(closed, lang), lang, [c] + s, v);
    assert Path(upper) + ([c] + s) == Path(upper) + [c] + s;
  }

  /** The key that such a branch adds was not there. */
  lemma {:induction false} BranchIsNew(levels: seq<Level>, target: nat, c: Byte, s: Key, lang: map<nat, Dict>)
    requires levels != [] && LevelsOk(levels, lang) && levels[|levels| - 1].label_ < c
    ensures Path(levels[..|levels| - 1]) + [c] + s !in Meaning(levels, target, lang)
  {
    hide ArcsDict, Total, Path, ArcsKnown;
    var n := |levels|;
    var upper, l := levels[..n - 1], levels[n - 1];
    var arcs := Group(l, target);
    assert LevelOk(l, lang);
    TotalPath(upper, ArcsDict(arcs, lang), lang, [c] + s);
    assert Path(upper) + ([c] + s) == Path(upper) + [c] + s;
    if [c] + s in ArcsDict(arcs, lang) {
      ArcsDictHead(arcs, lang, [c] + s);
      NoLargeArc(l, target, c, lang);
    }
  }

  lemma {:induction false} NoLargeArc(l: Level, target: nat, c: Byte, lang: map<nat, Dict>)
    requires LevelOk(l, lang) && l.label_ < c
    ensures forall i :: 0 <= i < |Group(l, target)| ==> Group(l, target)[i].c != c
  {
  }

  /** The last key is there, with the value its terminator carries. */
  lemma {:induction false} LastKeyMeaning(levels: seq<Level>, target: nat, lang: map<nat, Dict>)
    requires levels != [] && LevelsOk(levels, lang) && levels[|levels| - 1].label_ == 0
    ensures Path(levels[..|levels| - 1]) in Meaning(levels, target, lang)
  {
    hide ArcsDict, Total, ArcsKnown;
    var n := |levels|;
    var l, upper := levels[n - 1], levels[..n - 1];
    ArcsDictAppend(l.closed, Arc(0, target), lang);
    TotalPath(upper, ArcsDict(Group(l, target), lang), lang, []);
    assert Path(upper) + [] == Path(upper);
  }

  /** A second terminator on the same path gives the last key a new value. */
  lemma {:induction false} RepeatMeaning(levels: seq<Level>, target: nat, v: nat, lang: map<nat, Dict>)
    requires levels != []
    ensures var n := |levels|;
      Meaning(levels[..n - 1] + [Level(Group(levels[n - 1], target), 0)], v, lang)
        == Meaning(levels, target, lang)[Path(levels[..n - 1]) := v]
  {
    hide ArcsDict, Group;
    var n := |levels|;
    var upper, closed := levels[..n - 1], Group(levels[n - 1], target);
    var after := upper + [Level(closed, 0)];
    assert after[..n - 1] == upper && after[n - 1] == Level(closed, 0);
    assert Group(after[n - 1], v) == closed + [Arc(0, v)] by {
      GroupIs(after[n - 1], v);
    }
    ArcsDictAppend(closed, Arc(0, v), lang);
    assert ArcsDict(closed, lang) + map[[] := v] == ArcsDict(closed, lang)[[] := v];
    TotalUpdate(upper, ArcsDict(closed, lang), lang, [], v);
    assert Path(upper) + [] == Path(upper);
  }

  lemma {:induction false} GroupIs(l: Level, target: nat)
    ensures Group(l, target) == l.closed + [Arc(l.label_, target)]
  {
  }
}
