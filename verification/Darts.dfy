/**
  The dictionary: building it from a keyset, and the three searches over it.
 */
module Darts {
  import opened Bitwise
  import opened Dictionary
  import opened UnitWords
  import opened Keysets
  import opened KeyWeights
  import opened Layouts
  import opened BuilderState
  import opened DoubleArraySearch
  import opened DoubleArrayBuilders
  import opened Reports
  import opened KeysetMeanings
  import opened GraphRuns

  /** The keyset with the indexes as explicit values. */
  function Indexed(ks: Keyset): (r: Keyset)
    ensures r.keys == ks.keys && r.values.Some?
    ensures ks.Valid() ==> r.Valid()
    ensures ks.Valid() && ks.values.None? ==> forall i :: 0 <= i < |ks.keys| ==> r.Value(i) == ks.Value(i)
  {
    ks.(values := Some(seq(|ks.keys|, i requires 0 <= i => Int32(i))))
  }

  /**
    Without values, the word graph given the indexes as values describes the same map
    as the trie, exactly if no index overrides a different one.
   */
  lemma {:induction false} RoutesAgree(ks: Keyset)
    requires ks.Valid() && ks.values.None? && WellFormed(ks)
    ensures KeysetDict(Indexed(ks)) == KeysetDict(ks) <==> RepeatsAgree(Indexed(ks))
  {
    var indexed := Indexed(ks);
    AcceptedValues(ks);
    hide Indexed, Keyset.Value, GraphDict, RangeDict, RepeatsAgree, WellFormed, FirstValues;
    GraphFirst(indexed);
    WholeRange(ks);
    SameFirstValues(ks, indexed, KeysetDict(ks));
    if RepeatsAgree(indexed) {
      FirstValuesUnique(indexed, KeysetDict(ks), KeysetDict(indexed));
    }
  }

  lemma {:induction false} SameFirstValues(a: Keyset, b: Keyset, d: Dict)
    requires a.Valid() && b.Valid() && a.keys == b.keys
    requires forall i :: 0 <= i < |a.keys| ==> a.Value(i) == b.Value(i)
    ensures FirstValues(a, d) <==> FirstValues(b, d)
  {
    hide Keyset.Value;
  }

  /**
    In the array of an empty dictionary a step from the root by any byte but 1 is
    taken, although no key has that byte: traverse then reports -1 and not -2.
   */
  lemma {:induction false} EmptyDictionaryWalks(c: Byte)
    requires c != 0
    ensures Walk(EmptyUnits(), 0, [c]) == if c == 1 then (0, 0) else (1, Xor(c, 1))
  {
    hide Xor, Walk;
    var units := EmptyUnits();
    WalkOne(units, 0, c);
    assert Offset(1024) == 1;
    XorCommutes(1, c);
    XorCommutes(0, Xor(1, c));
    XorZero(Xor(1, c));
    XorByte(1, c);
    XorCommutes(0, c);
    var t := Xor(c, 1);
    XorCancels(c, 1);
    XorSelf(1);
    if c == 1 {
      assert Label(1024) == 0;
    } else {
      XorDistinct(1, c, 1);
      SmallLabel(c);
    }
  }

  lemma {:induction false} SmallLabel(c: Byte)
    ensures Label(c) == c
  {
  }

  /** A walk from the root stops before the end of s. */
  predicate StopsEarly(units: seq<nat>, s: Key) {
    Walk(units, 0, s).0 < |s|
  }

  /**
    traverse stops early exactly when no key continues with the string - for every
    dictionary but the empty one, where it follows a byte that no key has.
   */
  lemma {:induction false} TraverseExact(ks: Keyset, units: seq<nat>, sem: map<nat, Dict>)
    requires ks.Valid() && Encodes(units, sem, KeysetDict(ks))
    ensures (forall s: Key :: StopsEarly(units, s) <==> AfterAll(KeysetDict(ks), s) == map[]) <==> ks.keys != []
  {
    hide Walk, AfterAll, Represents, EmptyUnits, NoDeadNode, KeysetDict;
    var d := KeysetDict(ks);
    DictKeys(ks);
    if ks.keys != [] {
      assert ks.keys[0] in d;
      forall s: Key
        ensures StopsEarly(units, s) <==> AfterAll(d, s) == map[]
      {
        ReachedAlive(units, sem, s);
      }
    } else {
      assert d == map[];
      EmptyDictionaryWalks(2);
      AfterAllEmpty([2]);
      assert !StopsEarly(units, [2]);
    }
  }

  /** The end of a string that a zero byte ends. */
  lemma {:induction false} EndsAt(key: Key, length: nat)
    requires Readable(key, 0, length)
    ensures length > 0 ==> KeyEnd(key, 0, length) == length
    ensures length == 0 ==> forall n: nat :: n < |key| && key[n] == 0 && 0 !in key[..n] ==> KeyEnd(key, 0, 0) == n
  {
    hide KeyEnd;
    if length == 0 {
      forall n: nat | n < |key| && key[n] == 0 && 0 !in key[..n]
        ensures KeyEnd(key, 0, 0) == n
      {
        assert forall i :: 0 <= i < n ==> key[i] == key[..n][i];
        EndIs(key, 0, n);
      }
    }
  }

  lemma {:induction false} NoKeysNoDict(ks: Keyset)
    requires ks.Valid()
    ensures KeysetDict(ks) == map[] <==> ks.keys == []
  {
    hide KeysetDict;
    DictKeys(ks);
    if ks.keys != [] {
      assert ks.keys[0] in KeysetDict(ks);
    } else {
      assert forall k :: k !in KeysetDict(ks);
    }
  }

  lemma {:induction false} ReachedAlive(units: seq<nat>, sem: map<nat, Dict>, s: Key)
    requires Represents(units, sem) && NoDeadNode(sem) && 0 in sem
    ensures StopsEarly(units, s) <==> AfterAll(sem[0], s) == map[]
  {
    hide Walk, AfterAll, Represents;
    WalkSound(units, sem, 0, s);
    var n := Walk(units, 0, s).0;
    if n == |s| {
      assert s[..n] == s;
    }
  }

  // The stored map in terms of the pairs.

  /** What the stored map has for q, in terms of the pairs. */
  lemma {:induction false} AnswerDecided(ks: Keyset, q: Key, d: Dict)
    requires ks.Valid() && Accepted(ks) && d == KeysetDict(ks)
    ensures q in d <==> IsStored(ks, q)
    ensures IsStored(ks, q) ==> exists i: nat :: Decides(ks, q, i)
    ensures forall i: nat :: Decides(ks, q, i) ==> q in d && d[q] == ks.Value(i)
    ensures FirstValues(ks, d) ==> forall i: nat :: FirstPair(ks, q, i) ==> q in d && d[q] == ks.Value(i)
  {
    hide Accepted, KeysetDict, LastStored, Keyset.Value;
    DictKeys(ks);
    if IsStored(ks, q) {
      var i := Decided(ks, q);
    }
    forall i: nat | Decides(ks, q, i)
      ensures IsStored(ks, q)
    {
      DecidedStored(ks, q, i);
    }
    hide Decides, IsStored;
  }

  /** The whole stored map, in terms of the pairs. */
  lemma {:induction false} AllAnswers(ks: Keyset, d: Dict)
    requires ks.Valid() && Accepted(ks) && d == KeysetDict(ks)
    ensures forall q: Key :: q in d <==> IsStored(ks, q)
    ensures ks.values.Some? ==> forall q: Key, i: nat :: Decides(ks, q, i) ==> q in d && d[q] == ks.values.value[i]
    ensures ks.values.None? ==>
      && |ks.keys| <= 0x8000_0000
      && forall q: Key, i: nat :: FirstPair(ks, q, i) ==> q in d && d[q] == i
  {
    hide Accepted, KeysetDict, Keyset.Value, IsStored, Decides, FirstPair;
    AcceptedValues(ks);
    if ks.values.None? {
      IndexValues(ks);
    }
    forall q: Key
      ensures q in d <==> IsStored(ks, q)
      ensures forall i: nat :: Decides(ks, q, i) ==> i < |ks.keys| && q in d && d[q] == ks.Value(i)
      ensures ks.values.None? ==> forall i: nat :: FirstPair(ks, q, i) ==> Decides(ks, q, i)
    {
      AnswerDecided(ks, q, d);
      PairBounds(ks, q);
    }
  }

  lemma {:induction false} PairBounds(ks: Keyset, q: Key)
    requires ks.Valid()
    ensures forall i: nat :: Decides(ks, q, i) ==> i < |ks.keys|
    ensures ks.values.None? ==> forall i: nat :: FirstPair(ks, q, i) ==> Decides(ks, q, i)
  {
  }

  lemma {:induction false} DecidedStored(ks: Keyset, q: Key, i: nat)
    requires ks.Valid() && Decides(ks, q, i)
    ensures IsStored(ks, q)
  {
    hide Dropped;
  }

  /** The pair that decides, and that no other one does. */
  lemma {:induction false} Decided(ks: Keyset, q: Key) returns (i: nat)
    requires ks.Valid() && Accepted(ks) && IsStored(ks, q)
    ensures Decides(ks, q, i) && q in KeysetDict(ks) && KeysetDict(ks)[q] == ks.Value(i)
    ensures forall j :: Decides(ks, q, j) ==> j == i
  {
    hide Accepted, GraphDict, RangeDict, LastStored;
    AcceptedValues(ks);
    DictKeys(ks);
    var n: nat := |ks.keys|;
    if ks.values.Some? {
      i := GraphMember(ks, n, q);
      LastIs(ks, n, q, i);
      forall j | Decides(ks, q, j)
        ensures j == i
      {
        LastStoredUnique(ks, n, q, i, j);
      }
    } else {
      WholeRange(ks);
      var x :| 0 <= x < n && ks.keys[x] == q;
      i := FirstIndex(ks.keys, q, x);
      forall j | Decides(ks, q, j)
        ensures j == i
      {
        InPrefix(ks.keys, i, j);
        InPrefix(ks.keys, j, i);
      }
    }
  }

  class DoubleArray {
    var units: seq<nat>
    ghost var sem: map<nat, Dict>

    ghost predicate Valid()
      reads this
    {
      Represents(units, sem) && 0 in sem
    }

    constructor ()
      ensures units == [] && sem == map[]
    {
      units := [];
      sem := map[];
    }

    /** Replaces the dictionary; when the build fails the old one stays. */
    method Build(ks: Keyset) returns (outcome: Outcome)
      requires ks.Valid() && (ks.values.Some? ==> DawgInput(ks))
      modifies this
      ensures outcome == Built ==>
        && Accepted(ks) && Valid() && sem[0] == KeysetDict(ks)
        && (FirstValues(ks, sem[0]) <==> FirstKept(ks))
        && (if ks.keys != [] then NoDeadNode(sem) else units == EmptyUnits())
      ensures outcome == Built ==> forall q: Key :: q in sem[0] <==> IsStored(ks, q)
      ensures outcome == Built && ks.values.Some? ==>
        forall q: Key, i: nat :: Decides(ks, q, i) ==> q in sem[0] && sem[0][q] == ks.values.value[i]
      ensures outcome == Built && ks.values.None? ==>
        && |ks.keys| <= 0x8000_0000
        && forall q: Key, i: nat :: FirstPair(ks, q, i) ==> q in sem[0] && sem[0][q] == i
      ensures outcome.Failed? ==> Reported(ks, outcome.error) && units == old(units) && sem == old(sem)
      ensures KeysetBytes(ks.keys) <= 0x20_0000 - 2 ==> (outcome == Built <==> Accepted(ks))
    {
      hide KeysetDict, KeysetBytes, Accepted, Reported, Represents, NoDeadNode, FirstValues, FirstKept, EmptyUnits;
      hide IsStored, Decides, FirstPair;
      var builder := new DoubleArrayBuilder();
      ghost var built;
      outcome, built := builder.Build(ks);
      if outcome == Built {
        FirstPairs(ks);
        NoKeysNoDict(ks);
        units := builder.units;
        sem := built;
        AllAnswers(ks, sem[0]);
      }
      if KeysetBytes(ks.keys) <= 0x20_0000 - 2 {
        SmallKeysetsBuild(ks, outcome);
      }
    }

    method ExactMatchSearch(key: Key, length: nat, nodePos: nat) returns (result: ResultPair)
      requires Valid() && nodePos in sem && Readable(key, 0, length)
      ensures length > 0 ==> var q := key[..length];
        result == if q in sem[nodePos] then ResultPair(sem[nodePos][q], length) else ResultPair(-1, 0)
      ensures length == 0 ==> forall n: nat :: n < |key| && key[n] == 0 && 0 !in key[..n] ==> var q := key[..n];
        result == if q in sem[nodePos] then ResultPair(sem[nodePos][q], n) else ResultPair(-1, 0)
    {
      hide Xor, Label, Offset, HasLeaf, Value;
      hide Represents, After, AfterAll;
      ghost var q := key[..KeyEnd(key, 0, length)];
      EndsAt(key, length);
      ghost var d := sem[nodePos];
      SearchStart(units, sem, nodePos, q);
      var pos := nodePos;
      var unit := units[pos];
      var i := 0;
      while if length != 0 then i < length else key[i] != 0
        invariant i <= |q|
        invariant pos in sem && pos < |units| && unit == units[pos]
        invariant sem[pos] == AfterAll(d, q[..i])
        decreases |q| - i
      {
        var c := key[i];
        assert i < |q| && q[i] == c;
        StepSound(units, sem, pos, c);
        LivePrefix(d, q, i);
        pos := Xor(pos, Xor(Offset(unit), c));
        unit := units[pos];
        if Label(unit) != c {
          DeadPrefix(d, q, i);
          return NO_MATCH;
        }
        i := i + 1;
      }
      assert q[..i] == q;
      WholeKey(d, q);
      LeafRead(units, sem, pos);
      if !HasLeaf(unit) {
        return NO_MATCH;
      }
      unit := units[Xor(pos, Offset(unit))];
      result := ResultPair(Value(unit), i);
    }

    /**
      Counts every match and stores the first `maxNumResults` of them; the rest of
      the caller's buffer is left alone.
     */
    method CommonPrefixSearch(key: Key, results: array<ResultPair>, maxNumResults: nat,
                              length: nat, nodePos: nat) returns (numResults: nat)
      requires Valid() && nodePos in sem && Readable(key, 0, length)
      requires maxNumResults <= results.Length
      modifies results
      ensures length > 0 ==> var matches := PrefixMatches(sem[nodePos], key[..length]);
        && numResults == |matches|
        && forall k :: 0 <= k < results.Length ==>
          results[k] == if k < maxNumResults && k < |matches| then matches[k] else old(results[k])
      ensures length == 0 ==> forall n: nat :: n < |key| && key[n] == 0 && 0 !in key[..n] ==>
        var matches := PrefixMatches(sem[nodePos], key[..n]);
        && numResults == |matches|
        && forall k :: 0 <= k < results.Length ==>
          results[k] == if k < maxNumResults && k < |matches| then matches[k] else old(results[k])
    {
      hide Xor, Label, Offset, HasLeaf, Value;
      hide Represents, After, AfterAll, PrefixMatches, Walk;
      ghost var q := key[..KeyEnd(key, 0, length)];
      EndsAt(key, length);
      ghost var d := sem[nodePos];
      numResults := 0;
      SearchStart(units, sem, nodePos, q);
      var unit := units[nodePos];
      ghost var node := nodePos;
      var pos := Xor(nodePos, Offset(unit));
      var i := 0;
      while if length != 0 then i < length else key[i] != 0
        invariant i <= |q|
        invariant node in sem && node < |units| && pos == Xor(node, Offset(units[node]))
        invariant sem[node] == AfterAll(d, q[..i])
        invariant Filled(results[..], old(results[..]), PrefixMatches(d, q[..i]), maxNumResults)
        invariant numResults == |PrefixMatches(d, q[..i])|
        decreases |q| - i
      {
        var c := key[i];
        assert i < |q| && q[i] == c;
        StepSound(units, sem, node, c);
        StepTarget(node, Offset(units[node]), c);
        LivePrefix(d, q, i);
        NextMatch(d, q, i);
        pos := Xor(pos, c);
        unit := units[pos];
        if Label(unit) != c {
          DeadMatches(d, q, i);
          return;
        }
        node := pos;
        pos := Xor(pos, Offset(unit));
        WholeKey(d, q[..i + 1]);
        LeafRead(units, sem, node);
        if HasLeaf(unit) {
          if numResults < maxNumResults {
            results[numResults] := ResultPair(Value(units[pos]), i + 1);
          }
          numResults := numResults + 1;
        }
        i := i + 1;
      }
      assert q[..i] == q;
    }

    /**
      Follows the remaining bytes as far as possible. The result is -2 when it
      stops early; that happens only if no key continues with those bytes, and
      always then in an array without dead nodes.
     */
    method Traverse(key: Key, nodePos: nat, keyPos: nat, length: nat)
      returns (result: int, newNodePos: nat, newKeyPos: nat)
      requires Valid() && nodePos in sem && Readable(key, keyPos, length)
      ensures keyPos <= newKeyPos && newNodePos in sem && (newKeyPos == keyPos ==> newNodePos == nodePos)
      ensures newKeyPos > keyPos ==>
        newKeyPos <= |key| && sem[newNodePos] == AfterAll(sem[nodePos], key[keyPos..newKeyPos])
      ensures result != -2 ==>
        && (length > 0 ==> newKeyPos == if keyPos < length then length else keyPos)
        && (length == 0 ==> newKeyPos < |key| && key[newKeyPos] == 0 && 0 !in key[keyPos..newKeyPos])
        && var s := if newKeyPos > keyPos then key[keyPos..newKeyPos] else [];
           result == if s in sem[nodePos] then sem[nodePos][s] else -1
      ensures result == -2 ==>
        && newKeyPos < |key| && (if length > 0 then newKeyPos < length else 0 !in key[keyPos..newKeyPos + 1])
        && After(sem[newNodePos], key[newKeyPos]) == map[]
      ensures var rest := Remaining(key, keyPos, length);
        && (result, newNodePos, newKeyPos - keyPos) == Traversed(units, nodePos, rest)
        && (result == -2 ==> AfterAll(sem[nodePos], rest) == map[])
        && (NoDeadNode(sem) ==> (result == -2 <==> AfterAll(sem[nodePos], rest) == map[]))
    {
      hide Xor, Label, Offset, HasLeaf, Value;
      hide Represents, After, AfterAll, PrefixMatches, Walk, LeafValue;
      ghost var rest := Remaining(key, keyPos, length);
      ghost var d := sem[nodePos];
      SearchStart(units, sem, nodePos, rest);
      var id := nodePos;
      var unit := units[id];
      newNodePos, newKeyPos := nodePos, keyPos;
      ghost var n := 0;
      while if length != 0 then newKeyPos < length else key[newKeyPos] != 0
        invariant n <= |rest| && newKeyPos == keyPos + n
        invariant length == 0 || keyPos < length || n == 0
        invariant id == newNodePos && id in sem && id < |units| && unit == units[id]
        invariant Walk(units, nodePos, rest[..n]) == (n, id)
        invariant sem[id] == AfterAll(d, rest[..n])
        decreases |rest| - n
      {
        var c := key[newKeyPos];
        assert n < |rest| && rest[n] == c;
        StepSound(units, sem, id, c);
        LivePrefix(d, rest, n);
        WalkOne(units, id, c);
        WalkSnoc(units, nodePos, rest[..n], c);
        assert rest[..n] + [c] == rest[..n + 1];
        id := Xor(id, Xor(Offset(unit), c));
        unit := units[id];
        if Label(unit) != c {
          DeadPrefix(d, rest, n);
          WalkAppend(units, nodePos, rest[..n + 1], rest[n + 1..]);
          assert rest[..n + 1] + rest[n + 1..] == rest;
          assert Walk(units, nodePos, rest) == (n, newNodePos);
          RemainingAt(key, keyPos, length, n);
          return -2, newNodePos, newKeyPos;
        }
        newNodePos := id;
        newKeyPos, n := newKeyPos + 1, n + 1;
      }
      assert rest[..n] == rest;
      RemainingAt(key, keyPos, length, n);
      ReadsLeaf(units, sem, id);
      WholeKey(d, rest);
      LeafRead(units, sem, id);
      if !HasLeaf(unit) {
        return -1, newNodePos, newKeyPos;
      }
      unit := units[Xor(id, Offset(unit))];
      result := Value(unit);
    }
  }

  /** Two calls of traverse, the second one from where the first one ended, are as good as one. */
  method TraverseInTwo(dict: DoubleArray, key: Key, nodePos: nat, keyPos: nat, middle: nat, length: nat)
    returns (result: int, newNodePos: nat, newKeyPos: nat)
    requires dict.Valid() && nodePos in dict.sem && Readable(key, keyPos, length)
    requires 0 < middle && keyPos <= middle
    requires if length > 0 then middle <= length else middle < |key| && 0 !in key[keyPos..middle]
    ensures keyPos <= newKeyPos
    ensures (result, newNodePos, newKeyPos - keyPos) == Traversed(dict.units, nodePos, Remaining(key, keyPos, length))
    ensures newNodePos in dict.sem && (newKeyPos == keyPos ==> newNodePos == nodePos)
    ensures newKeyPos > keyPos ==>
      newKeyPos <= |key| && dict.sem[newNodePos] == AfterAll(dict.sem[nodePos], key[keyPos..newKeyPos])
    ensures result != -2 ==>
      && (length > 0 ==> newKeyPos == if keyPos < length then length else keyPos)
      && (length == 0 ==> newKeyPos < |key| && key[newKeyPos] == 0 && 0 !in key[keyPos..newKeyPos])
      && var s := if newKeyPos > keyPos then key[keyPos..newKeyPos] else [];
         result == if s in dict.sem[nodePos] then dict.sem[nodePos][s] else -1
    ensures result == -2 ==>
      && newKeyPos < |key| && (if length > 0 then newKeyPos < length else 0 !in key[keyPos..newKeyPos + 1])
      && After(dict.sem[newNodePos], key[newKeyPos]) == map[]
  {
    hide Traversed, Walk, Represents, Readable, KeyEnd, Remaining, After, AfterAll, NoDeadNode;
    ghost var rest := Remaining(key, keyPos, length);
    assert middle <= KeyEnd(key, keyPos, length) && Readable(key, keyPos, middle) by {
      BeforeEnd(key, keyPos, middle, length);
    }
    RemainingPart(key, keyPos, middle, length);
    var first, node, pos := dict.Traverse(key, nodePos, keyPos, middle);
    RemainingFrom(key, keyPos, pos, length);
    TraverseResumes(dict.units, nodePos, rest, middle - keyPos);
    result, newNodePos, newKeyPos := dict.Traverse(key, node, pos, length);
    ghost var d := dict.sem[nodePos];
    if newKeyPos > keyPos {
      AfterTwo(d, key, keyPos, pos, newKeyPos);
    } else {
      AfterNone(d);
    }
  }

  lemma {:induction false} BeforeEnd(key: Key, from: nat, middle: nat, length: nat)
    requires Readable(key, from, length) && 0 < middle && from <= middle
    requires if length > 0 then middle <= length else middle < |key| && 0 !in key[from..middle]
    ensures middle <= KeyEnd(key, from, length) && Readable(key, from, middle)
  {
  }

  /** Following a stretch of the key in two parts. */
  lemma {:induction false} AfterTwo(d: Dict, key: Key, a: nat, b: nat, c: nat)
    requires a <= b <= c <= |key|
    ensures key[a..b] + key[b..c] == key[a..c]
    ensures AfterAll(d, key[a..c]) == AfterAll(AfterAll(d, key[a..b]), key[b..c])
    ensures key[a..c] in d <==> key[b..c] in AfterAll(d, key[a..b])
    ensures key[a..c] in d ==> d[key[a..c]] == AfterAll(d, key[a..b])[key[b..c]]
    ensures a == b ==> AfterAll(d, key[a..b]) == d
  {
    assert key[a..b] + key[b..c] == key[a..c];
    AfterAllAppend(d, key[a..b], key[b..c]);
    AfterAllMember(d, key[a..b], key[b..c]);
  }

  lemma {:induction false} AfterNone(d: Dict)
    ensures AfterAll(d, []) == d
  {
  }

  lemma {:induction false} ReadsLeaf(units: seq<nat>, sem: map<nat, Dict>, id: nat)
    requires Represents(units, sem) && id in sem
    ensures id < |units| && (HasLeaf(units[id]) ==> Xor(id, Offset(units[id])) < |units|)
    ensures HasLeaf(units[id]) ==> LeafValue(units, id) == Value(units[Xor(id, Offset(units[id]))])
    ensures !HasLeaf(units[id]) ==> LeafValue(units, id) == -1
  {
    hide HasLeaf, Offset, Value, Xor;
    assert NodeOk(units, sem, id);
  }

  /**
    From the keyset to the answer to the query q, which is given by its length or ends at a
    zero byte: a key is found with the value of the pair that decides, which is the
    first one if the first ones are kept; nothing else is found.
   */
  method BuildAndSearch(ks: Keyset, key: Key, length: nat, ghost q: Key) returns (outcome: Outcome, result: ResultPair)
    requires ks.Valid() && (ks.values.Some? ==> DawgInput(ks))
    requires if length > 0 then length <= |key| && q == key[..length] else q + [0] <= key && 0 !in q
    ensures outcome == Built ==> Accepted(ks)
    ensures outcome == Built ==>
      && (!IsStored(ks, q) ==> result == ResultPair(-1, 0))
      && (IsStored(ks, q) ==> exists i: nat :: Decides(ks, q, i))
    ensures outcome == Built && ks.values.Some? ==>
      && (forall i: nat :: Decides(ks, q, i) ==> result == ResultPair(ks.values.value[i], |q|))
      && (FirstKept(ks) ==> forall i: nat :: FirstPair(ks, q, i) ==> result == ResultPair(ks.values.value[i], |q|))
    ensures outcome == Built && ks.values.None? ==>
      && |ks.keys| <= 0x8000_0000
      && forall i: nat :: FirstPair(ks, q, i) ==> result == ResultPair(i, |q|)
    ensures outcome == Built && ZeroFollows(ks) ==>
      && (q !in ks.keys ==> result == ResultPair(-1, 0))
      && (forall i: nat :: FirstPair(ks, q, i) ==>
            result == ResultPair(if ks.values.Some? then ks.values.value[i] else i, |q|))
  {
    hide KeysetDict, Accepted, Reported, Represents, DawgInput, FirstKept, FirstValues, FirstPair, Decides;
    hide KeysetBytes, Keyset.Value, IsStored, ZeroFollows;
    QueryEnds(key, length, q);
    hide Readable;
    var dict := new DoubleArray();
    result := NO_MATCH;
    outcome := dict.Build(ks);
    if outcome == Built {
      result := dict.ExactMatchSearch(key, length, 0);
      ghost var d := dict.sem[0];
      assert result == if q in d then ResultPair(d[q], |q|) else ResultPair(-1, 0);
      AnswerDecided(ks, q, d);
      if ZeroFollows(ks) {
        ZeroDecides(ks, q);
      }
    }
  }

  /** How the query is given. */
  lemma {:induction false} QueryEnds(key: Key, length: nat, q: Key)
    requires if length > 0 then length <= |key| && q == key[..length] else q + [0] <= key && 0 !in q
    ensures Readable(key, 0, length)
    ensures length == 0 ==> |q| < |key| && key[|q|] == 0 && key[..|q|] == q
  {
    if length == 0 {
      assert (q + [0])[|q|] == 0;
      assert key[0..] == key;
    }
  }
}
