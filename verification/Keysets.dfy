/**
  The keys and values given to a build, and the map they stand for.
 */
module Keysets {
  import opened Dictionary

  datatype Option<+T> = None | Some(value: T)

  datatype BuildError = InvalidNull | NegativeValue | WrongOrder | ZeroLength | TooLargeOffset

  datatype Outcome = Built | Failed(error: BuildError)

  /** Conversion of an index to the 32-bit value type. */
  function Int32(i: nat): (v: int)
    ensures -0x8000_0000 <= v < 0x8000_0000 && (v - i) % 0x1_0000_0000 == 0
  {
    var low := i % 0x1_0000_0000;
    if low < 0x8000_0000 then low else low - 0x1_0000_0000
  }

  /**
    Key i holds the bytes before its end, and following[i] is the byte in memory after
    that. With explicit lengths a key may contain zero bytes, and any byte may follow;
    without them it ends at the first zero byte.
   */
  datatype Keyset = Keyset(keys: seq<Key>, following: seq<Byte>, hasLengths: bool, values: Option<seq<int>>) {
    ghost predicate Valid() {
      && |following| == |keys|
      && (hasLengths || forall i :: 0 <= i < |keys| ==> NulFreeKey(keys[i]) && following[i] == 0)
      && (values.Some? ==> |values.value| == |keys|)
      && (values.Some? ==> forall i :: 0 <= i < |keys| ==> -0x8000_0000 <= values.value[i] < 0x8000_0000)
    }

    /** The byte of key i at a depth, or the terminator at its end. */
    function Label(i: nat, depth: nat): Byte
      requires i < |keys|
    {
      if depth < |keys[i]| then keys[i][depth] else 0
    }

    /** The value given with key i, or the index as a value. */
    function Value(i: nat): (v: int)
      requires i < |keys| && (values.Some? ==> |values.value| == |keys|)
      ensures values.Some? ==> v == values.value[i]
      ensures values.None? ==> -0x8000_0000 <= v < 0x8000_0000 && (v - i) % 0x1_0000_0000 == 0
    {
      if values.Some? then values.value[i] else Int32(i)
    }
  }

  function Stored(ks: Keyset, i: nat): (v: nat)
    requires i < |ks.keys| && (ks.values.Some? ==> |ks.values.value| == |ks.keys|)
    ensures ks.Value(i) >= 0 ==> v == ks.Value(i)
  {
    if ks.Value(i) < 0 then 0 else ks.Value(i)
  }

  /** Keys begin..end share their first `depth` bytes. */
  ghost predicate InRange(ks: Keyset, begin: nat, end: nat, depth: nat) {
    && ks.Valid()
    && begin <= end <= |ks.keys|
    && forall i :: begin <= i < end ==> depth <= |ks.keys[i]|
  }

  /** What the keys of a range still spell after `depth` bytes; the first of equal keys wins. */
  ghost function RangeDict(ks: Keyset, begin: nat, end: nat, depth: nat): Dict
    requires InRange(ks, begin, end, depth)
    decreases end
  {
    if begin == end then map[]
    else
      var d := RangeDict(ks, begin, end - 1, depth);
      var k := ks.keys[end - 1][depth..];
      if k in d then d else d[k := Stored(ks, end - 1)]
  }

  /** i is the first key of the range that spells k. */
  ghost predicate FirstAt(ks: Keyset, begin: nat, end: nat, depth: nat, k: Key, i: nat)
    requires InRange(ks, begin, end, depth)
  {
    && begin <= i < end
    && ks.keys[i][depth..] == k
    && forall j :: begin <= j < i ==> ks.keys[j][depth..] != k
  }

  /** The map a keyset stands for: every key with its first value. */
  ghost predicate FirstValues(ks: Keyset, d: Dict)
    requires ks.Valid()
  {
    && (forall k :: k in d ==> k in ks.keys)
    && (forall i :: 0 <= i < |ks.keys| ==> ks.keys[i] in d)
    && (forall i :: 0 <= i < |ks.keys| && ks.keys[i] !in ks.keys[..i] ==> d[ks.keys[i]] == ks.Value(i))
  }

  lemma {:induction false} RangeMember(ks: Keyset, begin: nat, end: nat, depth: nat, k: Key) returns (i: nat)
    requires InRange(ks, begin, end, depth) && k in RangeDict(ks, begin, end, depth)
    ensures FirstAt(ks, begin, end, depth, k, i)
    ensures RangeDict(ks, begin, end, depth)[k] == Stored(ks, i)
    decreases end
  {
    if k in RangeDict(ks, begin, end - 1, depth) {
      i := RangeMember(ks, begin, end - 1, depth, k);
    } else {
      i := end - 1;
      forall j | begin <= j < i
        ensures ks.keys[j][depth..] != k
      {
        RangeCovers(ks, begin, end - 1, depth, j);
      }
    }
  }

  lemma {:induction false} RangeCovers(ks: Keyset, begin: nat, end: nat, depth: nat, i: nat)
    requires InRange(ks, begin, end, depth) && begin <= i < end
    ensures ks.keys[i][depth..] in RangeDict(ks, begin, end, depth)
    decreases end
  {
    if i < end - 1 {
      RangeCovers(ks, begin, end - 1, depth, i);
    }
  }

  lemma {:induction false} FirstUnique(ks: Keyset, begin: nat, end: nat, depth: nat, k: Key, i: nat, j: nat)
    requires InRange(ks, begin, end, depth)
    requires FirstAt(ks, begin, end, depth, k, i) && FirstAt(ks, begin, end, depth, k, j)
    ensures i == j
  {
  }

  lemma {:induction false} RangeFirst(ks: Keyset, begin: nat, end: nat, depth: nat, k: Key, i: nat)
    requires InRange(ks, begin, end, depth) && FirstAt(ks, begin, end, depth, k, i)
    ensures k in RangeDict(ks, begin, end, depth)
    ensures RangeDict(ks, begin, end, depth)[k] == Stored(ks, i)
  {
    RangeCovers(ks, begin, end, depth, i);
    var j := RangeMember(ks, begin, end, depth, k);
    FirstUnique(ks, begin, end, depth, k, i, j);
  }

  /** begin'..end' are exactly the keys of begin..end whose next byte is c. */
  ghost predicate IsGroup(ks: Keyset, begin: nat, end: nat, depth: nat, c: Byte, begin': nat, end': nat)
    requires InRange(ks, begin, end, depth)
  {
    && c != 0
    && begin <= begin' < end' <= end
    && forall i :: begin <= i < end ==> (ks.Label(i, depth) == c <==> begin' <= i < end')
  }

  lemma {:induction false} GroupTail(ks: Keyset, i: nat, depth: nat, c: Byte, k: Key)
    requires i < |ks.keys| && depth <= |ks.keys[i]| && c != 0
    ensures ks.keys[i][depth..] == [c] + k <==>
      ks.Label(i, depth) == c && depth < |ks.keys[i]| && ks.keys[i][depth + 1..] == k
  {
    var s := ks.keys[i][depth..];
    if depth < |ks.keys[i]| {
      assert s == [s[0]] + s[1..];
      assert s[1..] == ks.keys[i][depth + 1..];
    }
  }

  lemma {:induction false} GroupInRange(ks: Keyset, begin: nat, end: nat, depth: nat, c: Byte, begin': nat, end': nat)
    requires InRange(ks, begin, end, depth) && IsGroup(ks, begin, end, depth, c, begin', end')
    ensures InRange(ks, begin', end', depth + 1)
  {
    forall i | begin' <= i < end'
      ensures depth + 1 <= |ks.keys[i]|
    {
      assert ks.Label(i, depth) == c;
    }
  }

  lemma {:induction false} GroupFirst(ks: Keyset, begin: nat, end: nat, depth: nat, c: Byte, begin': nat, end': nat,
                                      k: Key, i: nat)
    requires InRange(ks, begin, end, depth) && IsGroup(ks, begin, end, depth, c, begin', end')
    requires InRange(ks, begin', end', depth + 1)
    ensures FirstAt(ks, begin', end', depth + 1, k, i) <==> FirstAt(ks, begin, end, depth, [c] + k, i)
  {
    forall j | begin <= j < end
      ensures ks.keys[j][depth..] == [c] + k <==>
        begin' <= j < end' && ks.keys[j][depth + 1..] == k
    {
      GroupTail(ks, j, depth, c, k);
    }
  }

  /** The keys of a group spell what is left of the whole range after the group's byte. */
  lemma {:induction false} GroupDict(ks: Keyset, begin: nat, end: nat, depth: nat, c: Byte, begin': nat, end': nat)
    requires InRange(ks, begin, end, depth) && IsGroup(ks, begin, end, depth, c, begin', end')
    requires InRange(ks, begin', end', depth + 1)
    ensures RangeDict(ks, begin', end', depth + 1) == After(RangeDict(ks, begin, end, depth), c)
  {
    hide RangeDict, FirstAt, InRange, After, IsGroup;
    var small, large := RangeDict(ks, begin', end', depth + 1), RangeDict(ks, begin, end, depth);
    AfterMembers(large, c);
    forall k
      ensures k in small <==> [c] + k in large
      ensures k in small ==> small[k] == large[[c] + k]
    {
      if k in small {
        var i := RangeMember(ks, begin', end', depth + 1, k);
        GroupFirst(ks, begin, end, depth, c, begin', end', k, i);
        RangeFirst(ks, begin, end, depth, [c] + k, i);
      }
      if [c] + k in large {
        var i := RangeMember(ks, begin, end, depth, [c] + k);
        GroupFirst(ks, begin, end, depth, c, begin', end', k, i);
        RangeFirst(ks, begin', end', depth + 1, k, i);
      }
    }
    SameDict(small, After(large, c));
  }

  /** The whole keyset, read from depth 0, maps every key to its first value. */
  lemma {:induction false} WholeRange(ks: Keyset)
    requires ks.Valid() && forall i :: 0 <= i < |ks.keys| ==> ks.Value(i) >= 0
    ensures InRange(ks, 0, |ks.keys|, 0)
    ensures FirstValues(ks, RangeDict(ks, 0, |ks.keys|, 0))
  {
    var n := |ks.keys|;
    var d := RangeDict(ks, 0, n, 0);
    assert forall i :: 0 <= i < n ==> ks.keys[i][0..] == ks.keys[i];
    forall k | k in d
      ensures k in ks.keys
    {
      var i := RangeMember(ks, 0, n, 0, k);
    }
    forall i | 0 <= i < n
      ensures ks.keys[i] in d
    {
      RangeCovers(ks, 0, n, 0, i);
    }
    forall i | 0 <= i < n && ks.keys[i] !in ks.keys[..i]
      ensures d[ks.keys[i]] == ks.Value(i)
    {
      assert forall j :: 0 <= j < i ==> ks.keys[..i][j] == ks.keys[j];
      RangeFirst(ks, 0, n, 0, ks.keys[i], i);
    }
  }

  /** There is only one such map. */
  lemma {:induction false} FirstValuesUnique(ks: Keyset, a: Dict, b: Dict)
    requires ks.Valid() && FirstValues(ks, a) && FirstValues(ks, b)
    ensures a == b
  {
    forall k | k in a
      ensures k in b && a[k] == b[k]
    {
      var i :| 0 <= i < |ks.keys| && ks.keys[i] == k;
      var f := FirstIndex(ks.keys, k, i);
    }
    forall k | k in b
      ensures k in a
    {
      var i :| 0 <= i < |ks.keys| && ks.keys[i] == k;
    }
  }

  lemma {:induction false} FirstIndex(keys: seq<Key>, k: Key, i: nat) returns (f: nat)
    requires i < |keys| && keys[i] == k
    ensures f < |keys| && keys[f] == k && k !in keys[..f]
    decreases i
  {
    if k in keys[..i] {
      var j :| 0 <= j < i && keys[..i][j] == k;
      f := FirstIndex(keys, k, j);
    } else {
      f := i;
    }
  }

  // Keys that the word graph drops, and keys that are given again.

  /**
    After the last key the key is dropped: the last one goes on from it, with the very
    byte that follows it in memory.
   */
  ghost predicate DropsOut(last: Key, key: Key, following: Byte) {
    && |key| < |last| && key == last[..|key|] && NulFreeKey(key)
    && 0 < last[|key|] == following
  }

  /** The last of the first i keys that is not dropped. */
  ghost function Before(ks: Keyset, i: nat): Option<Key>
    requires i <= |ks.keys| == |ks.following|
  {
    if i == 0 then None
    else
      var last := Before(ks, i - 1);
      if last.Some? && DropsOut(last.value, ks.keys[i - 1], ks.following[i - 1]) then last
      else Some(ks.keys[i - 1])
  }

  ghost predicate Dropped(ks: Keyset, i: nat)
    requires i < |ks.keys| == |ks.following|
  {
    Before(ks, i).Some? && DropsOut(Before(ks, i).value, ks.keys[i], ks.following[i])
  }

  /** Key i is the last key again. */
  ghost predicate Again(ks: Keyset, i: nat)
    requires i < |ks.keys| == |ks.following|
  {
    Before(ks, i) == Some(ks.keys[i])
  }

  /** Key i is the last key again, with a byte after its end that is not zero. */
  ghost predicate Overrides(ks: Keyset, i: nat)
    requires i < |ks.keys| == |ks.following|
  {
    Again(ks, i) && ks.following[i] != 0
  }

  /** The word graph takes the value of key i. */
  ghost predicate Stores(ks: Keyset, i: nat)
    requires i < |ks.keys| == |ks.following|
  {
    !Dropped(ks, i) && (Again(ks, i) ==> ks.following[i] != 0)
  }

  /** How many of the first n keys override the value of the key before. */
  ghost function Overrode(ks: Keyset, n: nat): nat
    requires n <= |ks.keys| == |ks.following|
  {
    if n == 0 then 0 else Overrode(ks, n - 1) + if Overrides(ks, n - 1) then 1 else 0
  }

  /** What the word graph of the first n keys means. */
  ghost function GraphDict(ks: Keyset, n: nat): Dict
    requires ks.Valid() && n <= |ks.keys|
  {
    if n == 0 then map[]
    else if Stores(ks, n - 1) then GraphDict(ks, n - 1)[ks.keys[n - 1] := Stored(ks, n - 1)]
    else GraphDict(ks, n - 1)
  }

  /** i is the last of the first n keys from which the word graph takes the value for k. */
  ghost predicate LastStored(ks: Keyset, n: nat, k: Key, i: nat)
    requires n <= |ks.keys| == |ks.following|
  {
    && i < n && ks.keys[i] == k && Stores(ks, i)
    && forall j :: i < j < n && ks.keys[j] == k ==> !Stores(ks, j)
  }

  /** The last key before i that is not dropped has an index. */
  lemma {:induction false} BeforeIndex(ks: Keyset, i: nat) returns (j: nat)
    requires i <= |ks.keys| == |ks.following| && Before(ks, i).Some?
    ensures j < i && !Dropped(ks, j) && Before(ks, i).value == ks.keys[j]
    decreases i
  {
    hide DropsOut;
    if Dropped(ks, i - 1) {
      j := BeforeIndex(ks, i - 1);
    } else {
      j := i - 1;
    }
  }

  lemma {:induction false} GraphMember(ks: Keyset, n: nat, k: Key) returns (i: nat)
    requires ks.Valid() && n <= |ks.keys| && k in GraphDict(ks, n)
    ensures LastStored(ks, n, k, i) && GraphDict(ks, n)[k] == Stored(ks, i)
    decreases n
  {
    hide Stores;
    if Stores(ks, n - 1) && ks.keys[n - 1] == k {
      i := n - 1;
    } else {
      i := GraphMember(ks, n - 1, k);
    }
  }

  lemma {:induction false} StoredStays(ks: Keyset, n: nat, k: Key)
    requires ks.Valid() && n < |ks.keys| && k in GraphDict(ks, n)
    ensures k in GraphDict(ks, n + 1)
  {
    hide Stores;
  }

  /** Every key that is not dropped is there. */
  lemma {:induction false} GraphCovers(ks: Keyset, n: nat, i: nat)
    requires ks.Valid() && i < n <= |ks.keys| && !Dropped(ks, i)
    ensures ks.keys[i] in GraphDict(ks, n)
    decreases n, i
  {
    hide GraphDict, Dropped, Before;
    if i < n - 1 {
      GraphCovers(ks, n - 1, i);
      StoredStays(ks, n - 1, ks.keys[i]);
    } else if Stores(ks, i) {
      TakenIn(ks, i);
    } else {
      var j := BeforeIndex(ks, i);
      GraphCovers(ks, i, j);
      StoredStays(ks, i, ks.keys[i]);
    }
  }

  lemma {:induction false} TakenIn(ks: Keyset, i: nat)
    requires ks.Valid() && i < |ks.keys| && Stores(ks, i)
    ensures ks.keys[i] in GraphDict(ks, i + 1)
  {
    hide Stores;
  }

  lemma {:induction false} LastStoredUnique(ks: Keyset, n: nat, k: Key, i: nat, j: nat)
    requires n <= |ks.keys| == |ks.following| && LastStored(ks, n, k, i) && LastStored(ks, n, k, j)
    ensures i == j
  {
    hide Stores;
  }

  lemma {:induction false} LastIs(ks: Keyset, n: nat, k: Key, i: nat)
    requires n <= |ks.keys| == |ks.following| && LastStored(ks, n, k, i)
    ensures i < n && ks.keys[i] == k
  {
    hide Stores;
  }

  /** The keys of the graph are those that are taken from somewhere. */
  lemma {:induction false} StoredIs(ks: Keyset, i: nat)
    requires ks.Valid() && i < |ks.keys| && LastStored(ks, |ks.keys|, ks.keys[i], i)
    ensures ks.keys[i] in GraphDict(ks, |ks.keys|)
    ensures GraphDict(ks, |ks.keys|)[ks.keys[i]] == Stored(ks, i)
  {
    var n: nat := |ks.keys|;
    assert !Dropped(ks, i);
    hide GraphDict, LastStored, Dropped;
    GraphCovers(ks, n, i);
    var j := GraphMember(ks, n, ks.keys[i]);
    LastStoredUnique(ks, n, ks.keys[i], i, j);
  }

  /** The value of the first pair with this key is the one that the word graph has in the end. */
  ghost predicate FirstStays(ks: Keyset, f: nat)
    requires ks.Valid() && f < |ks.keys|
  {
    exists i :: 0 <= i < |ks.keys| && LastStored(ks, |ks.keys|, ks.keys[f], i) && ks.Value(i) == ks.Value(f)
  }

  /** The last pair taken for a key has the value of the first one: values that override others are the same. */
  ghost predicate RepeatsAgree(ks: Keyset)
    requires ks.Valid()
  {
    forall f :: 0 <= f < |ks.keys| && ks.keys[f] !in ks.keys[..f] ==> FirstStays(ks, f)
  }

  /**
    The word graph has the first value of every key exactly when of all pairs with the
    key the last one taken has the value of the first. The keys need not be in order.
   */
  lemma {:induction false} GraphFirst(ks: Keyset)
    requires ks.Valid() && forall i :: 0 <= i < |ks.keys| ==> ks.Value(i) >= 0
    ensures FirstValues(ks, GraphDict(ks, |ks.keys|)) <==> RepeatsAgree(ks)
  {
    hide GraphDict, LastStored, FirstStays, Keyset.Value;
    var n: nat := |ks.keys|;
    var d := GraphDict(ks, n);
    if FirstValues(ks, d) {
      forall f | 0 <= f < n && ks.keys[f] !in ks.keys[..f]
        ensures FirstStays(ks, f)
      {
        StaysIf(ks, f);
      }
    }
    if RepeatsAgree(ks) {
      forall f | 0 <= f < n && ks.keys[f] !in ks.keys[..f]
        ensures ks.keys[f] in d && d[ks.keys[f]] == ks.Value(f)
      {
        StaysMeans(ks, f);
      }
      AllStay(ks);
    }
  }

  lemma {:induction false} StaysIf(ks: Keyset, f: nat)
    requires ks.Valid() && f < |ks.keys| && forall i :: 0 <= i < |ks.keys| ==> ks.Value(i) >= 0
    requires ks.keys[f] in GraphDict(ks, |ks.keys|) && GraphDict(ks, |ks.keys|)[ks.keys[f]] == ks.Value(f)
    ensures FirstStays(ks, f)
  {
    hide GraphDict, LastStored;
    var n: nat := |ks.keys|;
    var i := GraphMember(ks, n, ks.keys[f]);
    LastIs(ks, n, ks.keys[f], i);
  }

  lemma {:induction false} StaysMeans(ks: Keyset, f: nat)
    requires ks.Valid() && f < |ks.keys| && FirstStays(ks, f)
    requires forall i :: 0 <= i < |ks.keys| ==> ks.Value(i) >= 0
    ensures ks.keys[f] in GraphDict(ks, |ks.keys|) && GraphDict(ks, |ks.keys|)[ks.keys[f]] == ks.Value(f)
  {
    hide GraphDict, LastStored;
    var n: nat := |ks.keys|;
    var i :| 0 <= i < n && LastStored(ks, n, ks.keys[f], i) && ks.Value(i) == ks.Value(f);
    LastIs(ks, n, ks.keys[f], i);
    StoredIs(ks, i);
  }

  lemma {:induction false} AllStay(ks: Keyset)
    requires ks.Valid() && RepeatsAgree(ks)
    ensures forall k :: k in GraphDict(ks, |ks.keys|) ==> k in ks.keys
    ensures forall i :: 0 <= i < |ks.keys| ==> ks.keys[i] in GraphDict(ks, |ks.keys|)
  {
    hide GraphDict, LastStored;
    var n: nat := |ks.keys|;
    forall k | k in GraphDict(ks, n)
      ensures k in ks.keys
    {
      var i := GraphMember(ks, n, k);
      LastIs(ks, n, k, i);
    }
    forall i | 0 <= i < n
      ensures ks.keys[i] in GraphDict(ks, n)
    {
      var f := FirstIndex(ks.keys, ks.keys[i], i);
      assert FirstStays(ks, f);
      var x :| 0 <= x < n && LastStored(ks, n, ks.keys[f], x);
      LastIs(ks, n, ks.keys[f], x);
      StoredIs(ks, x);
    }
  }

  /** A key that the stored map has: one that is not dropped. */
  ghost predicate IsKept(ks: Keyset, k: Key)
    requires |ks.keys| == |ks.following|
  {
    exists i :: 0 <= i < |ks.keys| && ks.keys[i] == k && !Dropped(ks, i)
  }

  lemma {:induction false} GraphKeys(ks: Keyset)
    requires ks.Valid()
    ensures forall k :: k in GraphDict(ks, |ks.keys|) <==> IsKept(ks, k)
  {
    hide GraphDict, Dropped, Before;
    var n: nat := |ks.keys|;
    forall k
      ensures k in GraphDict(ks, n) <==> IsKept(ks, k)
    {
      if k in GraphDict(ks, n) {
        var i := GraphMember(ks, n, k);
      }
      if IsKept(ks, k) {
        var i :| 0 <= i < n && ks.keys[i] == k && !Dropped(ks, i);
        GraphCovers(ks, n, i);
      }
    }
  }

  // A zero byte after every key.

  ghost predicate ZeroFollows(ks: Keyset) {
    |ks.following| == |ks.keys| && forall i :: 0 <= i < |ks.keys| ==> ks.following[i] == 0
  }

  /** Then no key is dropped and nothing is overridden, as always without explicit lengths. */
  lemma {:induction false} NothingDropped(ks: Keyset, n: nat)
    requires ZeroFollows(ks) && n <= |ks.keys|
    ensures Before(ks, n) == (if n == 0 then None else Some(ks.keys[n - 1]))
    ensures n < |ks.keys| ==> !Dropped(ks, n)
    ensures Overrode(ks, n) == 0
    decreases n
  {
    if n > 0 {
      NothingDropped(ks, n - 1);
    }
  }

  lemma {:induction false} InPrefix(keys: seq<Key>, i: nat, f: nat)
    ensures i < f <= |keys| ==> keys[i] in keys[..f]
  {
    if i < f <= |keys| {
      assert keys[..f][i] == keys[i];
    }
  }
}
