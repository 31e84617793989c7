/**
  What the units of a finished double array mean, and how a search moves over them.
 */
module DoubleArraySearch {
  import opened Bitwise
  import opened Dictionary
  import opened UnitWords

  datatype ResultPair = ResultPair(value: int, length: nat)

  const NO_MATCH := ResultPair(-1, 0)

  /**
    The step by c from a node with child base `base` meaning d: it is taken only
    into a unit that means what is left of d after c, and is taken whenever
    something is left.
   */
  ghost predicate StepOk(units: seq<nat>, sem: map<nat, Dict>, d: Dict, base: nat, c: Byte) {
    var t := Xor(base, c);
    && t < |units|
    && (Label(units[t]) == c ==> t in sem && sem[t] == After(d, c))
    && (After(d, c) != map[] ==> Label(units[t]) == c)
  }

  ghost predicate NodeOk(units: seq<nat>, sem: map<nat, Dict>, id: nat)
    requires id < |units| && id in sem
  {
    var base := Xor(id, Offset(units[id]));
    && (HasLeaf(units[id]) <==> [] in sem[id])
    && ([] in sem[id] ==> base < |units| && Value(units[base]) == sem[id][[]])
    && forall c: Byte :: StepOk(units, sem, sem[id], base, c)
  }

  /** Every unit in `sem` behaves as a node of an automaton for the map it is given. */
  ghost predicate Represents(units: seq<nat>, sem: map<nat, Dict>) {
    forall id :: id in sem ==> id < |units| && NodeOk(units, sem, id)
  }

  /** No unit in `sem` stands for the empty map, so no step is taken in vain. */
  ghost predicate NoDeadNode(sem: map<nat, Dict>) {
    forall id :: id in sem ==> sem[id] != map[]
  }

  /**
    How many bytes of s can be followed from unit id, and the unit reached, going
    by the words of the array alone.
   */
  function Walk(units: seq<nat>, id: nat, s: Key): (r: (nat, nat))
    ensures r.0 <= |s|
    decreases |s|
  {
    if s == [] || id >= |units| then (0, id)
    else
      var t := Xor(id, Xor(Offset(units[id]), s[0]));
      if t < |units| && Label(units[t]) == s[0] then
        var (n, end) := Walk(units, t, s[1..]);
        (n + 1, end)
      else (0, id)
  }

  /** Length of the string that ends before the first zero byte at or after `from`. */
  function StringEnd(key: Key, from: nat): (n: nat)
    requires from <= |key| && 0 in key[from..]
    ensures from <= n < |key| && key[n] == 0
    ensures forall i :: from <= i < n ==> key[i] != 0
    decreases |key| - from
  {
    if key[from] == 0 then from
    else
      assert key[from..] == [key[from]] + key[from + 1..];
      StringEnd(key, from + 1)
  }

  /** What the caller owes: `length` bytes, or a zero byte when length is 0. */
  ghost predicate Readable(key: Key, from: nat, length: nat) {
    if length != 0 then length <= |key| else from <= |key| && 0 in key[from..]
  }

  /** One past the last byte that a search starting at `from` reads as part of the key. */
  function KeyEnd(key: Key, from: nat, length: nat): (n: nat)
    requires Readable(key, from, length)
    ensures n <= |key|
    ensures length != 0 ==> n == length
    ensures length == 0 ==> from <= n < |key| && key[n] == 0 && forall i :: from <= i < n ==> key[i] != 0
  {
    if length != 0 then length else StringEnd(key, from)
  }

  /** The bytes that a traversal from `from` tries to follow. */
  function Remaining(key: Key, from: nat, length: nat): (rest: Key)
    requires Readable(key, from, length)
    ensures var n := KeyEnd(key, from, length); rest == if from < n then key[from..n] else []
  {
    if length == 0 then key[from..StringEnd(key, from)]
    else if from < length then key[from..length]
    else []
  }

  /** Where the string ends that a zero byte ends. */
  lemma {:induction false} EndIs(key: Key, from: nat, n: nat)
    requires Readable(key, from, 0) && from <= n < |key| && key[n] == 0
    requires forall i :: from <= i < n ==> key[i] != 0
    ensures KeyEnd(key, from, 0) == n
  {
  }

  /** Where the first n of the remaining bytes stand, and what follows them. */
  lemma {:induction false} RemainingAt(key: Key, from: nat, length: nat, n: nat)
    requires Readable(key, from, length) && n <= |Remaining(key, from, length)|
    ensures n > 0 ==> from + n <= |key| && Remaining(key, from, length)[..n] == key[from..from + n]
    ensures n == |Remaining(key, from, length)| && length > 0 ==> from + n == if from < length then length else from
    ensures n == |Remaining(key, from, length)| && length == 0 ==>
      from + n < |key| && key[from + n] == 0 && 0 !in key[from..from + n]
    ensures n < |Remaining(key, from, length)| ==>
      && from + n < |key| && key[from + n] == Remaining(key, from, length)[n]
      && if length > 0 then from + n < length else 0 !in key[from..from + n + 1]
  {
    hide Readable;
    var end := KeyEnd(key, from, length);
    hide KeyEnd, Remaining;
  }

  /** The matches among the prefixes of s, shortest first; the empty prefix does not count. */
  ghost function PrefixMatches(d: Dict, s: Key): seq<ResultPair>
    decreases |s|
  {
    if s == [] then []
    else
      PrefixMatches(d, s[..|s| - 1]) + (if s in d then [ResultPair(d[s], |s|)] else [])
  }

  lemma {:induction false} StepTarget(id: nat, offset: nat, c: Byte)
    ensures Xor(id, Xor(offset, c)) == Xor(Xor(id, offset), c)
  {
    XorAssociates(id, offset, c);
  }

  /** One search step from a node in `sem`, in terms of the maps. */
  lemma {:induction false} StepSound(units: seq<nat>, sem: map<nat, Dict>, id: nat, c: Byte)
    requires Represents(units, sem) && id in sem && id < |units|
    ensures var t := Xor(id, Xor(Offset(units[id]), c));
      && t < |units|
      && (Label(units[t]) == c ==> t in sem && sem[t] == After(sem[id], c))
      && (Label(units[t]) != c ==> After(sem[id], c) == map[])
  {
    hide Xor;
    StepTarget(id, Offset(units[id]), c);
    assert NodeOk(units, sem, id);
    assert StepOk(units, sem, sem[id], Xor(id, Offset(units[id])), c);
  }

  lemma {:induction false} SearchStart(units: seq<nat>, sem: map<nat, Dict>, id: nat, q: Key)
    requires Represents(units, sem) && id in sem
    ensures id < |units|
    ensures AfterAll(sem[id], q[..0]) == sem[id]
    ensures PrefixMatches(sem[id], q[..0]) == []
    ensures Walk(units, id, q[..0]) == (0, id)
  {
    hide Xor;
    assert q[..0] == [];
  }

  lemma {:induction false} DeadPrefix(d: Dict, q: Key, i: nat)
    requires i < |q| && After(AfterAll(d, q[..i]), q[i]) == map[]
    ensures AfterAll(d, q) == map[] && q !in d
    ensures forall k: Key :: q <= k ==> k !in d
  {
    AfterAllSnoc(d, q[..i], q[i]);
    assert q[..i] + [q[i]] == q[..i + 1];
    assert q[..i + 1] + q[i + 1..] == q;
    AfterAllAppend(d, q[..i + 1], q[i + 1..]);
    AfterAllEmpty(q[i + 1..]);
    forall k: Key | q <= k
      ensures k !in d
    {
      AfterAllMember(d, q, k[|q|..]);
      assert q + k[|q|..] == k;
    }
  }

  lemma {:induction false} LivePrefix(d: Dict, q: Key, i: nat)
    requires i < |q|
    ensures AfterAll(d, q[..i + 1]) == After(AfterAll(d, q[..i]), q[i])
  {
    AfterAllSnoc(d, q[..i], q[i]);
    assert q[..i] + [q[i]] == q[..i + 1];
  }

  lemma {:induction false} WholeKey(d: Dict, q: Key)
    ensures [] in AfterAll(d, q) <==> q in d
    ensures q in d ==> AfterAll(d, q)[[]] == d[q]
  {
    AfterAllMember(d, q, []);
    assert q + [] == q;
  }

  lemma {:induction false} LeafRead(units: seq<nat>, sem: map<nat, Dict>, id: nat)
    requires Represents(units, sem) && id in sem && id < |units|
    ensures HasLeaf(units[id]) <==> [] in sem[id]
    ensures HasLeaf(units[id]) ==>
      var base := Xor(id, Offset(units[id]));
      base < |units| && Value(units[base]) == sem[id][[]]
  {
    hide Xor;
    assert NodeOk(units, sem, id);
  }

  /** Nothing longer than a dead prefix can match. */
  lemma {:induction false} DeadMatches(d: Dict, q: Key, i: nat)
    requires i < |q| && After(AfterAll(d, q[..i]), q[i]) == map[]
    ensures PrefixMatches(d, q) == PrefixMatches(d, q[..i])
    decreases |q|
  {
    var p := q[..|q| - 1];
    DeadPrefix(d, q, i);
    assert p[..i] == q[..i];
    if i < |p| {
      assert p[i] == q[i];
      DeadMatches(d, p, i);
    }
  }

  /** `now` is `before` with the first `limit` matches written over its start. */
  ghost predicate Filled(now: seq<ResultPair>, before: seq<ResultPair>, matches: seq<ResultPair>, limit: nat) {
    && |now| == |before|
    && forall k :: 0 <= k < |now| ==>
      now[k] == if k < limit && k < |matches| then matches[k] else before[k]
  }

  lemma {:induction false} NextMatch(d: Dict, q: Key, i: nat)
    requires i < |q|
    ensures PrefixMatches(d, q[..i + 1]) ==
      PrefixMatches(d, q[..i]) + (if q[..i + 1] in d then [ResultPair(d[q[..i + 1]], i + 1)] else [])
  {
    assert q[..i + 1][..i] == q[..i];
  }

  lemma {:induction false} WalkOne(units: seq<nat>, id: nat, c: Byte)
    requires id < |units|
    ensures var t := Xor(id, Xor(Offset(units[id]), c));
      Walk(units, id, [c]) == if t < |units| && Label(units[t]) == c then (1, t) else (0, id)
  {
    hide Xor;
    hide Label;
    hide Offset;
    var t := Xor(id, Xor(Offset(units[id]), c));
    assert [c][1..] == [];
    assert Walk(units, t, []) == (0, t);
  }

  lemma {:induction false} WalkSnoc(units: seq<nat>, id: nat, s: Key, c: Byte)
    requires Walk(units, id, s).0 == |s|
    ensures var end := Walk(units, id, s).1;
      && Walk(units, id, s + [c]).0 == |s| + Walk(units, end, [c]).0
      && Walk(units, id, s + [c]).1 == Walk(units, end, [c]).1
  {
    WalkAppend(units, id, s, [c]);
  }

  /**
    Traversal composes: following s and then t from where s ended is following
    s + t, and a walk that stops inside s stops at the same place inside s + t.
   */
  lemma {:induction false} WalkAppend(units: seq<nat>, id: nat, s: Key, t: Key)
    ensures var (n, end) := Walk(units, id, s);
      Walk(units, id, s + t) ==
        if n == |s| then (|s| + Walk(units, end, t).0, Walk(units, end, t).1) else (n, end)
    decreases |s|
  {
    hide Xor;
    hide Label;
    hide Offset;
    if s == [] {
      assert s + t == t;
    } else if id < |units| {
      var u := Xor(id, Xor(Offset(units[id]), s[0]));
      assert (s + t)[1..] == s[1..] + t;
      if u < |units| && Label(units[u]) == s[0] {
        WalkAppend(units, u, s[1..], t);
      }
    }
  }

  /** A walk that took n bytes of s takes them from s[..n] as well. */
  lemma {:induction false} WalkPrefix(units: seq<nat>, id: nat, s: Key)
    ensures var (n, end) := Walk(units, id, s); Walk(units, id, s[..n]) == (n, end)
  {
    hide Walk;
    var (n, end) := Walk(units, id, s);
    assert s[..n] + s[n..] == s;
    WalkAppend(units, id, s[..n], s[n..]);
    StaysPut(units, Walk(units, id, s[..n]).1, s[n..]);
  }

  lemma {:induction false} StaysPut(units: seq<nat>, id: nat, s: Key)
    ensures Walk(units, id, s).0 == 0 ==> Walk(units, id, s).1 == id
  {
    hide Xor, Label, Offset;
  }

  /** The value that is read at a unit, or -1 if it has none. */
  function LeafValue(units: seq<nat>, id: nat): int {
    if id < |units| && HasLeaf(units[id]) && Xor(id, Offset(units[id])) < |units|
    then Value(units[Xor(id, Offset(units[id]))])
    else -1
  }

  /** What traverse makes of the bytes s from unit id: its result, the unit reached, and the bytes followed. */
  function Traversed(units: seq<nat>, id: nat, s: Key): (int, nat, nat) {
    var (n, end) := Walk(units, id, s);
    (if n < |s| then -2 else LeafValue(units, end), end, n)
  }

  /**
    A traversal can be interrupted anywhere: going on from where the one over s[..k]
    ended, with the bytes of s that it did not follow, ends as one over all of s does, with
    the same unit, position and result. That holds also if the first one stopped early.
   */
  lemma {:induction false} TraverseResumes(units: seq<nat>, id: nat, s: Key, k: nat)
    requires k <= |s|
    ensures var (first, middle, n) := Traversed(units, id, s[..k]);
      var (second, end, m) := Traversed(units, middle, s[n..]);
      Traversed(units, id, s) == (second, end, n + m)
  {
    hide Walk, LeafValue;
    var (n, middle) := Walk(units, id, s[..k]);
    WalkPrefix(units, id, s[..k]);
    assert s[..k][..n] == s[..n] && s[..n] + s[n..] == s;
    WalkAppend(units, id, s[..n], s[n..]);
  }

  lemma {:induction false} StringEndFrom(key: Key, from: nat, to: nat)
    requires from <= |key| && 0 in key[from..] && from <= to <= StringEnd(key, from)
    ensures 0 in key[to..] && StringEnd(key, to) == StringEnd(key, from)
    decreases |key| - from
  {
    if from < to {
      assert key[from..] == [key[from]] + key[from + 1..];
      StringEndFrom(key, from + 1, to);
    }
  }

  /** What remains up to an earlier end. */
  lemma {:induction false} RemainingPart(key: Key, from: nat, middle: nat, length: nat)
    requires Readable(key, from, length) && 0 < middle && from <= middle <= KeyEnd(key, from, length)
    ensures Readable(key, from, middle) && KeyEnd(key, from, middle) == middle
    ensures middle - from <= |Remaining(key, from, length)|
    ensures Remaining(key, from, middle) == Remaining(key, from, length)[..middle - from]
  {
  }

  /** What remains of the bytes to follow, later on. */
  lemma {:induction false} RemainingFrom(key: Key, from: nat, to: nat, length: nat)
    requires Readable(key, from, length) && from <= to <= KeyEnd(key, from, length)
    ensures Readable(key, to, length)
    ensures to - from <= |Remaining(key, from, length)|
    ensures Remaining(key, to, length) == Remaining(key, from, length)[to - from..]
  {
    if length == 0 {
      StringEndFrom(key, from, to);
    }
  }

  /** What a walk over a represented dictionary means. */
  lemma {:induction false} WalkSound(units: seq<nat>, sem: map<nat, Dict>, id: nat, s: Key)
    requires Represents(units, sem) && id in sem
    ensures var (n, end) := Walk(units, id, s);
      && end in sem && sem[end] == AfterAll(sem[id], s[..n])
      && (n < |s| ==> After(sem[end], s[n]) == map[] && AfterAll(sem[id], s) == map[])
    decreases |s|
  {
    hide Xor;
    hide Label;
    hide Offset;
    if s == [] {
      assert s[..0] == [];
    } else {
      StepSound(units, sem, id, s[0]);
      var u := Xor(id, Xor(Offset(units[id]), s[0]));
      if Label(units[u]) == s[0] {
        WalkSound(units, sem, u, s[1..]);
        var n := Walk(units, u, s[1..]).0;
        assert s[..n + 1][1..] == s[1..][..n];
      } else {
        AfterAllEmpty(s[1..]);
        assert s[..0] == [];
      }
    }
  }

  /** A match is a nonempty prefix of s that is a key, with its value. */
  ghost predicate IsMatch(d: Dict, s: Key, m: ResultPair) {
    0 < m.length <= |s| && s[..m.length] in d && m.value == d[s[..m.length]]
  }

  lemma {:induction false} LongerMatch(d: Dict, s: Key, m: ResultPair)
    requires s != []
    ensures IsMatch(d, s, m) <==>
      IsMatch(d, s[..|s| - 1], m) || (s in d && m == ResultPair(d[s], |s|))
  {
    assert s[..|s|] == s;
    assert m.length < |s| ==> 0 <= m.length && s[..|s| - 1][..m.length] == s[..m.length];
  }

  ghost predicate Lengthening(matches: seq<ResultPair>) {
    forall i, j :: 0 <= i < j < |matches| ==> matches[i].length < matches[j].length
  }

  /** commonPrefixSearch reports exactly the nonempty prefixes of s that are keys, in increasing length. */
  lemma {:induction false} MatchesAre(d: Dict, s: Key)
    ensures forall m :: m in PrefixMatches(d, s) <==> IsMatch(d, s, m)
    ensures Lengthening(PrefixMatches(d, s))
    decreases |s|
  {
    hide IsMatch, Lengthening;
    if s == [] {
      NoMatchIn(d, s);
      LastIsLongest([], [], 0);
      assert PrefixMatches(d, s) == [] + [];
    } else {
      var p := s[..|s| - 1];
      var before := PrefixMatches(d, p);
      MatchesAre(d, p);
      forall m
        ensures m in PrefixMatches(d, s) <==> IsMatch(d, s, m)
      {
        LongerMatch(d, s, m);
      }
      forall m | m in before
        ensures m.length < |s|
      {
        MatchLength(d, p, m);
      }
      LastIsLongest(before, if s in d then [ResultPair(d[s], |s|)] else [], |s|);
    }
  }

  lemma {:induction false} NoMatchIn(d: Dict, s: Key)
    requires s == []
    ensures forall m :: !IsMatch(d, s, m)
  {
  }

  lemma {:induction false} MatchLength(d: Dict, s: Key, m: ResultPair)
    requires IsMatch(d, s, m)
    ensures m.length <= |s|
  {
  }

  lemma {:induction false} LastIsLongest(before: seq<ResultPair>, last: seq<ResultPair>, n: nat)
    requires before != [] ==> Lengthening(before)
    requires forall m :: m in before ==> m.length < n
    requires |last| <= 1 && forall m :: m in last ==> m.length == n
    ensures Lengthening(before + last)
  {
  }
}
