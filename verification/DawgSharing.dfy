/**
  Which states the word-graph builder marks as shared.

  Every string that the path has spelt on its way is remembered with the state that
  was frozen for it. A state is marked as soon as a second string gets it.
 */
module DawgSharing {
  import opened Dictionary
  import opened Keysets
  import opened DawgLevels
  import opened DawgGraphs
  import opened DawgStores

  /** s goes on from the path, or leaves it with a smaller byte. */
  ghost predicate Left(s: Key, path: Key) {
    path <= s || exists i: nat :: LeavesAt(s, path, i)
  }

  ghost predicate LeavesAt(s: Key, path: Key, i: nat) {
    i < |s| && i < |path| && s[..i] == path[..i] && s[i] < path[i]
  }

  /** s is a proper prefix of the path. */
  ghost predicate OnPath(s: Key, path: Key) {
    |s| < |path| && s == path[..|s|]
  }

  ghost predicate SeenState(seen: map<Key, nat>, path: Key, d: Dict, lang: map<nat, Dict>, s: Key)
    requires s in seen
  {
    && Left(s, path)
    && seen[s] in lang && lang[seen[s]] == AfterAll(d, s)
  }

  ghost predicate Reached(seen: map<Key, nat>, g: nat) {
    exists s :: s in seen && seen[s] == g
  }

  /** Two strings got state g. */
  ghost predicate Twice(seen: map<Key, nat>, g: nat) {
    exists s, t :: s in seen && t in seen && s != t && seen[s] == g && seen[t] == g
  }

  /** A string of which something is left was frozen, or is still on the path. */
  ghost predicate Covered(seen: map<Key, nat>, path: Key, d: Dict, s: Key) {
    AfterAll(d, s) != map[] ==> s in seen || OnPath(s, path)
  }

  ghost predicate MarkOk(seen: map<Key, nat>, bits: seq<bool>, g: nat) {
    g < |bits| && (bits[g] <==> Twice(seen, g)) && Reached(seen, g)
  }

  ghost predicate SeenOk(seen: map<Key, nat>, path: Key, d: Dict, lang: map<nat, Dict>, added: set<nat>,
                         bits: seq<bool>)
  {
    && (forall s :: s in seen ==> SeenState(seen, path, d, lang, s))
    && (forall s :: Covered(seen, path, d, s))
    && (forall g :: g in added ==> MarkOk(seen, bits, g))
  }

  lemma {:induction false} NothingSeen()
    ensures SeenOk(map[], [], map[], map[], {}, [false])
  {
    forall s
      ensures Covered(map[], [], map[], s)
    {
      AfterAllEmpty(s);
    }
  }

  // Freezing.

  /** Whatever was frozen still leaves the path when that gets shorter. */
  lemma {:induction false} LeftShorter(s: Key, path: Key, n: nat)
    requires Left(s, path) && n < |path|
    ensures Left(s, path[..n]) && s != path[..n]
  {
    var p := path[..n];
    if path <= s {
      assert s[..n] == p;
    } else {
      var i: nat :| LeavesAt(s, path, i);
      if i < n {
        assert p[..i] == path[..i];
        assert LeavesAt(s, p, i);
      } else {
        assert s[..n] == s[..i][..n] == path[..i][..n] == p;
      }
    }
  }

  lemma {:induction false} UnmarkedBits(bits: seq<bool>, n: nat)
    ensures |Unmarked(bits, n)| == |bits| + n
    ensures forall i :: 0 <= i < |bits| ==> Unmarked(bits, n)[i] == bits[i]
    ensures forall i :: |bits| <= i < |bits| + n ==> !Unmarked(bits, n)[i]
    decreases n
  {
    if n > 0 {
      UnmarkedBits(bits, n - 1);
    }
  }

  /** One more string p gets state g. */
  lemma {:induction false} MarkNext(seen: map<Key, nat>, p: Key, g: nat, bits: seq<bool>, bits': seq<bool>, x: nat)
    requires p !in seen
    requires x != g ==> MarkOk(seen, bits, x) && x < |bits'| && bits'[x] == bits[x]
    requires x == g ==> g < |bits'| && (bits'[g] <==> Reached(seen, g))
    ensures MarkOk(seen[p := g], bits', x)
  {
    var seen' := seen[p := g];
    if x == g {
      assert seen'[p] == g;
      if Reached(seen, g) {
        var s :| s in seen && seen[s] == g;
        assert s in seen' && seen'[s] == g;
      }
    } else {
      var s :| s in seen && seen[s] == x;
      assert s in seen' && seen'[s] == x;
      if Twice(seen, x) {
        var a, b :| a in seen && b in seen && a != b && seen[a] == x && seen[b] == x;
        assert a in seen' && b in seen' && seen'[a] == x && seen'[b] == x;
      }
    }
  }

  /** A frozen level: its string gets state g, which is marked if it was there already. */
  lemma {:induction false} SeenFreeze(seen: map<Key, nat>, levels: seq<Level>, target: nat,
                                      groups: map<nat, seq<Arc>>, lang: map<nat, Dict>, added: set<nat>,
                                      bits: seq<bool>, groups': map<nat, seq<Arc>>, lang': map<nat, Dict>,
                                      added': set<nat>, bits': seq<bool>, g: nat)
    requires levels != [] && LevelsOk(levels, lang) && Grows(lang, lang')
    requires SeenOk(seen, Path(levels), Meaning(levels, target, lang), lang, added, bits)
    requires g in lang' && lang'[g] == ArcsDict(Group(levels[|levels| - 1], target), lang)
    requires Frozen(groups, added, Group(levels[|levels| - 1], target), g, groups', added')
    requires groups.Keys == lang.Keys && added <= groups.Keys
    requires forall x :: x in groups ==> x < |bits|
    requires Marked(bits, Group(levels[|levels| - 1], target), g, g in groups, bits') && g < |bits'|
    ensures SeenOk(seen[Path(levels[..|levels| - 1]) := g], Path(levels[..|levels| - 1]),
                   Meaning(levels, target, lang), lang', added', bits')
  {
    hide AfterAll, Group, ArcsDict, Path, Meaning, MarkOk, Left, LevelsOk, Frozen, Marked;
    var n := |levels|;
    var path, p, d := Path(levels), Path(levels[..n - 1]), Meaning(levels, target, lang);
    var seen' := seen[p := g];
    PathPrefix(levels);
    PathAfter(levels, target, lang);
    forall s | s in seen
      ensures s != p && Left(s, p)
    {
      assert SeenState(seen, path, d, lang, s);
      LeftShorter(s, path, n - 1);
    }
    LeftItself(p);
    forall s | s in seen'
      ensures SeenState(seen', p, d, lang', s)
    {
      if s != p {
        assert SeenState(seen, path, d, lang, s);
      }
    }
    forall s
      ensures Covered(seen', p, d, s)
    {
      assert Covered(seen, path, d, s);
      StillOnPath(s, path, n - 1);
    }
    forall x | x in added'
      ensures MarkOk(seen', bits', x)
    {
      MarksFreeze(seen, groups, lang, added, bits, Group(levels[n - 1], target), groups', added', bits', g, p, x);
    }
  }

  lemma {:induction false} MarksFreeze(seen: map<Key, nat>, groups: map<nat, seq<Arc>>, lang: map<nat, Dict>,
                                       added: set<nat>, bits: seq<bool>, arcs: seq<Arc>,
                                       groups': map<nat, seq<Arc>>, added': set<nat>, bits': seq<bool>,
                                       g: nat, p: Key, x: nat)
    requires p !in seen && x in added' && g < |bits'|
    requires forall s :: s in seen ==> seen[s] in groups
    requires forall x :: x in added ==> MarkOk(seen, bits, x)
    requires Frozen(groups, added, arcs, g, groups', added') && added <= groups.Keys
    requires forall x :: x in groups ==> x < |bits|
    requires Marked(bits, arcs, g, g in groups, bits')
    ensures MarkOk(seen[p := g], bits', x)
  {
    hide Unmarked, NewStates, MarkOk;
    UnmarkedBits(bits, |arcs|);
    MarkReached(seen, bits, g);
    if x != g {
      assert x in added;
      assert MarkOk(seen, bits, x);
      MarkReached(seen, bits, x);
    }
    MarkNext(seen, p, g, bits, bits', x);
  }

  lemma {:induction false} MarkReached(seen: map<Key, nat>, bits: seq<bool>, g: nat)
    ensures MarkOk(seen, bits, g) ==> g < |bits| && Reached(seen, g)
  {
  }

  lemma {:induction false} LeftItself(p: Key)
    ensures Left(p, p)
  {
  }

  lemma {:induction false} StillOnPath(s: Key, path: Key, n: nat)
    requires |path| == n + 1
    ensures OnPath(s, path) ==> s == path[..n] || OnPath(s, path[..n])
  {
    if OnPath(s, path) && |s| < n {
      assert path[..n][..|s|] == path[..|s|];
    }
  }

  lemma {:induction false} PathPrefix(levels: seq<Level>)
    requires levels != []
    ensures |Path(levels)| == |levels| && Path(levels[..|levels| - 1]) == Path(levels)[..|levels| - 1]
  {
    PathLength(levels);
    PathLength(levels[..|levels| - 1]);
  }

  /** What is left of all keys after the bytes that lead to the last level. */
  lemma {:induction false} PathAfter(levels: seq<Level>, target: nat, lang: map<nat, Dict>)
    requires levels != [] && LevelsOk(levels, lang)
    ensures AfterAll(Meaning(levels, target, lang), Path(levels[..|levels| - 1]))
      == ArcsDict(Group(levels[|levels| - 1], target), lang)
  {
    hide ArcsDict, Group, AfterAll, Total, Path;
    TotalAfter(levels[..|levels| - 1], ArcsDict(Group(levels[|levels| - 1], target), lang), lang);
  }

  // Inserting.

  /** A new value for a key changes nothing behind a string that the key does not start with. */
  lemma {:induction false} AfterAllUpdate(d: Dict, key: Key, v: nat, s: Key)
    requires !(s <= key)
    ensures AfterAll(d[key := v], s) == AfterAll(d, s)
  {
    hide AfterAll;
    forall k
      ensures k in AfterAll(d[key := v], s) <==> k in AfterAll(d, s)
      ensures k in AfterAll(d, s) && k in AfterAll(d[key := v], s) ==> AfterAll(d[key := v], s)[k] == AfterAll(d, s)[k]
    {
      AfterAllMember(d[key := v], s, k);
      AfterAllMember(d, s, k);
      assert s <= s + k;
    }
    SameDict(AfterAll(d[key := v], s), AfterAll(d, s));
  }

  /** The key leaves the path behind level k with a larger byte, or is the path's key again. */
  ghost predicate Branches(path: Key, key: Key, k: nat) {
    && |path| == k + 1 && k <= |key| && path[..k] == key[..k]
    && LabelBefore(path[k], if k < |key| then key[k] else 0)
  }

  lemma {:induction false} LeftBranch(s: Key, path: Key, key: Key, k: nat)
    requires Branches(path, key, k) && NulFreeKey(key) && Left(s, path)
    ensures Left(s, key + [0]) && !(s <= key)
  {
    var path' := key + [0];
    assert path'[..k] == key[..k];
    if path <= s {
      assert s[..k] == path[..k] && s[k] == path[k];
      if k < |key| {
        assert path[k] < key[k] == path'[k];
        assert LeavesAt(s, path', k);
      } else {
        assert path == path';
      }
    } else {
      var i: nat :| LeavesAt(s, path, i);
      assert path[..i] == path[..k][..i] == key[..k][..i] == path'[..i];
      LeavesEarlier(s, path, key, k, i);
      assert LeavesAt(s, path', i);
    }
  }

  lemma {:induction false} LeavesEarlier(s: Key, path: Key, key: Key, k: nat, i: nat)
    requires Branches(path, key, k) && NulFreeKey(key) && LeavesAt(s, path, i)
    ensures i <= |key| && s[i] < (key + [0])[i] && !(s <= key)
  {
    if i < k {
      assert path[i] == path[..k][i] == key[..k][i] == key[i];
    }
  }

  lemma {:induction false} OnKey(s: Key, path: Key, key: Key, k: nat)
    requires Branches(path, key, k) && OnPath(s, path)
    ensures s <= key
  {
    assert s == path[..k][..|s|] == key[..k][..|s|] == key[..|s|];
  }

  lemma {:induction false} CoveredBranch(seen: map<Key, nat>, path: Key, d: Dict, key: Key, k: nat, v: nat, s: Key)
    requires Branches(path, key, k) && Covered(seen, path, d, s)
    ensures Covered(seen, key + [0], d[key := v], s)
  {
    hide AfterAll, Branches;
    var path' := key + [0];
    if OnPath(s, path) {
      OnKey(s, path, key, k);
    }
    if s <= key {
      assert path'[..|s|] == s;
    } else {
      AfterAllUpdate(d, key, v, s);
    }
  }

  /** An inserted key. */
  lemma {:induction false} SeenInsert(seen: map<Key, nat>, path: Key, d: Dict, lang: map<nat, Dict>, added: set<nat>,
                                      bits: seq<bool>, key: Key, k: nat, v: nat)
    requires SeenOk(seen, path, d, lang, added, bits) && NulFreeKey(key) && Branches(path, key, k)
    ensures SeenOk(seen, key + [0], d[key := v], lang, added, bits)
  {
    hide AfterAll, Left, Branches, Covered, MarkOk, NulFreeKey;
    var path', d' := key + [0], d[key := v];
    forall s | s in seen
      ensures SeenState(seen, path', d', lang, s)
    {
      assert SeenState(seen, path, d, lang, s);
      LeftBranch(s, path, key, k);
      AfterAllUpdate(d, key, v, s);
    }
    forall s
      ensures Covered(seen, path', d', s)
    {
      assert Covered(seen, path, d, s);
      CoveredBranch(seen, path, d, key, k, v, s);
    }
  }

  lemma {:induction false} NotSeen(seen: map<Key, nat>, lang: map<nat, Dict>, s: Key)
    requires s in seen ==> SeenState(seen, [], map[], lang, s)
    requires forall g :: g in lang ==> lang[g] != map[]
    ensures s !in seen
  {
    AfterAllEmpty(s);
  }

  /** The first key. */
  lemma {:induction false} SeenFirst(seen: map<Key, nat>, lang: map<nat, Dict>, added: set<nat>, bits: seq<bool>,
                                     key: Key, v: nat)
    requires SeenOk(seen, [], map[], lang, added, bits)
    requires forall g :: g in lang ==> lang[g] != map[]
    ensures SeenOk(seen, key + [0], map[key := v], lang, added, bits)
  {
    hide AfterAll, Left, MarkOk;
    var d: Dict := map[];
    var path', d' := key + [0], d[key := v];
    assert d' == map[key := v];
    forall s
      ensures s !in seen
    {
      NotSeen(seen, lang, s);
    }
    forall s
      ensures Covered(seen, path', d', s)
    {
      if s <= key {
        assert path'[..|s|] == s;
      } else {
        AfterAllUpdate(d, key, v, s);
        AfterAllEmpty(s);
      }
    }
  }

  // The finished graph.

  /** Two different strings after which the same keys are left, and those are d. */
  ghost predicate LeftTwice(all: Dict, d: Dict) {
    exists s, t :: s != t && AfterAll(all, s) == d && AfterAll(all, t) == d
  }

  /** A state is marked exactly when its keys are left after two different strings. */
  lemma {:induction false} MarksAreShared(seen: map<Key, nat>, d: Dict, units: seq<nat>, labels: seq<Byte>,
                                          groups: map<nat, seq<Arc>>, lang: map<nat, Dict>, added: set<nat>,
                                          bits: seq<bool>, g: nat)
    requires SeenOk(seen, [], d, lang, added, bits) && Graph(units, labels, groups, lang)
    requires Minimal(groups, groups.Keys) && AllStrict(groups) && groups.Keys == added && g in groups && g in lang
    ensures g < |bits| && (bits[g] <==> LeftTwice(d, lang[g]))
  {
    hide AfterAll, AllStrict, Minimal, StateAt, ArcsOk, ArcsDict, NulFree, HeadUnitOk;
    assert MarkOk(seen, bits, g);
    assert StateOk(units, labels, groups, lang, g);
    if Twice(seen, g) {
      var s, t :| s in seen && t in seen && s != t && seen[s] == g && seen[t] == g;
      assert SeenState(seen, [], d, lang, s) && SeenState(seen, [], d, lang, t);
    }
    if LeftTwice(d, lang[g]) {
      var s, t :| s != t && AfterAll(d, s) == lang[g] && AfterAll(d, t) == lang[g];
      SeenIs(seen, d, units, labels, groups, lang, added, bits, g, s);
      SeenIs(seen, d, units, labels, groups, lang, added, bits, g, t);
    }
  }

  lemma {:induction false} SeenIs(seen: map<Key, nat>, d: Dict, units: seq<nat>, labels: seq<Byte>,
                                  groups: map<nat, seq<Arc>>, lang: map<nat, Dict>, added: set<nat>,
                                  bits: seq<bool>, g: nat, s: Key)
    requires SeenOk(seen, [], d, lang, added, bits) && Graph(units, labels, groups, lang)
    requires Minimal(groups, groups.Keys) && AllStrict(groups) && g in groups && g in lang
    requires AfterAll(d, s) == lang[g] && lang[g] != map[]
    ensures s in seen && seen[s] == g
  {
    hide AfterAll, AllStrict, Minimal, StateAt, ArcsOk, ArcsDict, NulFree, HeadUnitOk, MarkOk, StateOk;
    assert Covered(seen, [], d, s);
    assert SeenState(seen, [], d, lang, s);
    StateOfMeaning(units, labels, groups, lang, seen[s], g);
  }
}
