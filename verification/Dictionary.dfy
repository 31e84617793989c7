/**
  Finite maps from byte strings to values: the meaning of a dictionary, of a
  node of its automaton, and of a unit of the double array.
 */
module Dictionary {
  type Byte = x: nat | x < 256
  type Key = seq<Byte>
  type Dict = map<Key, nat>

  ghost predicate NulFreeKey(k: Key) {
    forall i :: 0 <= i < |k| ==> k[i] != 0
  }

  ghost predicate NulFree(d: Dict) {
    forall k :: k in d ==> NulFreeKey(k)
  }

  ghost function Tails(d: Dict, c: Byte): set<Key> {
    set k | k in d && |k| > 0 && k[0] == c :: k[1..]
  }

  /** What is left of d after the byte c. */
  ghost function After(d: Dict, c: Byte): Dict {
    map k | k in Tails(d, c) :: if [c] + k in d then d[[c] + k] else 0
  }

  /** What is left of d after the bytes of s. */
  ghost function AfterAll(d: Dict, s: Key): Dict
    decreases |s|
  {
    if s == [] then d else AfterAll(After(d, s[0]), s[1..])
  }

  /** d with the byte c in front of every key. */
  ghost function Prepend(c: Byte, d: Dict): Dict {
    map k | k in (set x | x in d :: [c] + x) :: if k[1..] in d then d[k[1..]] else 0
  }

  /** Whether d needs a child unit labelled c; label 0 stands for the end of a key. */
  ghost predicate HasLabel(d: Dict, c: Byte) {
    if c == 0 then [] in d else After(d, c) != map[]
  }

  /** No key of d starts with a zero byte. */
  ghost predicate NoNulStep(d: Dict) {
    After(d, 0) == map[]
  }

  lemma {:induction false} NoNulStepMeans(d: Dict, c: Byte)
    requires NoNulStep(d)
    ensures After(d, c) != map[] ==> c != 0
  {
  }

  lemma {:induction false} NoNulHead(d: Dict, k: Key)
    requires NoNulStep(d) && k in d && |k| > 0
    ensures k[0] != 0
  {
    AfterNonempty(d, k);
  }

  lemma {:induction false} ConsKey(c: Byte, k: Key)
    ensures ([c] + k)[1..] == k
  {
  }

  lemma {:induction false} UnconsKey(k: Key)
    requires |k| > 0
    ensures k == [k[0]] + k[1..]
  {
  }

  lemma {:induction false} AfterMember(d: Dict, c: Byte, k: Key)
    ensures k in After(d, c) <==> [c] + k in d
    ensures k in After(d, c) ==> After(d, c)[k] == d[[c] + k]
  {
    ConsKey(c, k);
    if k in Tails(d, c) {
      var x :| x in d && |x| > 0 && x[0] == c && x[1..] == k;
      UnconsKey(x);
    }
  }

  lemma {:induction false} AfterMembers(d: Dict, c: Byte)
    ensures forall k :: k in After(d, c) <==> [c] + k in d
    ensures forall k :: k in After(d, c) ==> After(d, c)[k] == d[[c] + k]
  {
    forall k: Key
      ensures k in After(d, c) <==> [c] + k in d
      ensures k in After(d, c) ==> After(d, c)[k] == d[[c] + k]
    {
      AfterMember(d, c, k);
    }
  }

  lemma {:induction false} AfterNonempty(d: Dict, k: Key)
    requires k in d && |k| > 0
    ensures k[1..] in After(d, k[0])
    ensures After(d, k[0]) != map[]
  {
    UnconsKey(k);
    AfterMember(d, k[0], k[1..]);
  }

  lemma {:induction false} AfterWitness(d: Dict, c: Byte) returns (k: Key)
    requires After(d, c) != map[]
    ensures [c] + k in d
  {
    k :| k in After(d, c);
    AfterMember(d, c, k);
  }

  lemma {:induction false} AfterNulFree(d: Dict, c: Byte)
    requires NulFree(d)
    ensures NulFree(After(d, c))
    ensures After(d, c) != map[] ==> c != 0
  {
    forall k | k in After(d, c)
      ensures NulFreeKey(k) && c != 0
    {
      AfterMember(d, c, k);
      var long := [c] + k;
      assert NulFreeKey(long);
      assert long[0] == c;
      forall i | 0 <= i < |k|
        ensures k[i] != 0
      {
        assert long[i + 1] == k[i];
      }
    }
  }

  /** The lookup rule of the automaton: consume the first byte, then look up the rest. */
  lemma {:induction false} AfterAllMember(d: Dict, s: Key, k: Key)
    ensures k in AfterAll(d, s) <==> s + k in d
    ensures k in AfterAll(d, s) ==> AfterAll(d, s)[k] == d[s + k]
    decreases |s|
  {
    if s == [] {
      assert s + k == k;
    } else {
      AfterAllMember(After(d, s[0]), s[1..], k);
      AfterMember(d, s[0], s[1..] + k);
      assert [s[0]] + (s[1..] + k) == s + k;
    }
  }

  lemma {:induction false} AfterAllAppend(d: Dict, s: Key, t: Key)
    ensures AfterAll(d, s + t) == AfterAll(AfterAll(d, s), t)
    decreases |s|
  {
    if s == [] {
      assert s + t == t;
    } else {
      AfterAllAppend(After(d, s[0]), s[1..], t);
      assert (s + t)[1..] == s[1..] + t;
    }
  }

  lemma {:induction false} AfterAllSnoc(d: Dict, s: Key, c: Byte)
    ensures AfterAll(d, s + [c]) == After(AfterAll(d, s), c)
  {
    AfterAllAppend(d, s, [c]);
    assert [c][1..] == [];
    assert AfterAll(After(AfterAll(d, s), c), []) == After(AfterAll(d, s), c);
  }

  lemma {:induction false} AfterAllEmpty(s: Key)
    ensures AfterAll(map[], s) == map[]
    decreases |s|
  {
    if s != [] {
      assert After(map[], s[0]) == map[];
      AfterAllEmpty(s[1..]);
    }
  }

  lemma {:induction false} PrependMember(c: Byte, d: Dict, k: Key)
    ensures k in Prepend(c, d) <==> |k| > 0 && k[0] == c && k[1..] in d
    ensures k in Prepend(c, d) ==> Prepend(c, d)[k] == d[k[1..]]
  {
    if k in Prepend(c, d) {
      var x :| x in d && k == [c] + x;
      ConsKey(c, x);
    }
    if |k| > 0 && k[0] == c && k[1..] in d {
      UnconsKey(k);
    }
  }

  lemma {:induction false} PrependMembers(c: Byte, d: Dict)
    ensures forall k :: k in Prepend(c, d) <==> |k| > 0 && k[0] == c && k[1..] in d
    ensures forall k :: k in Prepend(c, d) ==> Prepend(c, d)[k] == d[k[1..]]
  {
    forall k: Key
      ensures k in Prepend(c, d) <==> |k| > 0 && k[0] == c && k[1..] in d
      ensures k in Prepend(c, d) ==> Prepend(c, d)[k] == d[k[1..]]
    {
      PrependMember(c, d, k);
    }
  }

  /** Two maps with the same keys and the same values are equal. */
  lemma {:induction false} SameDict(a: Dict, b: Dict)
    requires forall k :: k in a <==> k in b
    requires forall k :: k in a && k in b ==> a[k] == b[k]
    ensures a == b
  {
  }
}
