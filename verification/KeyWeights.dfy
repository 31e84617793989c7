/**
  Counting the bytes of a set of keys. A build adds at most one block for every
  byte and every key, so a small keyset never needs an offset that is too large.
 */
module KeyWeights {
  import opened Bitwise
  import opened Dictionary
  import opened Keysets
  import opened UnitWords

  /** All bytes of the keys in s. */
  ghost function Bytes(s: set<Key>): nat
    decreases |s|
  {
    if s == {} then 0
    else
      var k :| k in s;
      |k| + Bytes(s - {k})
  }

  lemma {:induction false} BytesWithout(s: set<Key>, k: Key)
    requires k in s
    ensures Bytes(s) == |k| + Bytes(s - {k})
    decreases |s|
  {
    var x :| x in s && Bytes(s) == |x| + Bytes(s - {x});
    if x != k {
      BytesWithout(s - {x}, k);
      BytesWithout(s - {k}, x);
      assert s - {x} - {k} == s - {k} - {x};
    }
  }

  lemma {:induction false} BytesUnion(a: set<Key>, b: set<Key>)
    requires a !! b
    ensures Bytes(a + b) == Bytes(a) + Bytes(b)
    decreases |a|
  {
    if a == {} {
      assert a + b == b;
    } else {
      var k :| k in a;
      BytesWithout(a, k);
      BytesWithout(a + b, k);
      BytesUnion(a - {k}, b);
      assert (a + b) - {k} == (a - {k}) + b;
    }
  }

  /** The bytes of a map's keys, and one more for each key. */
  ghost function Weight(d: Dict): nat {
    Bytes(d.Keys) + |d.Keys|
  }

  ghost function Extended(c: Byte, s: set<Key>): set<Key> {
    set k | k in s :: [c] + k
  }

  lemma {:induction false} BytesExtended(c: Byte, s: set<Key>)
    ensures Bytes(Extended(c, s)) == Bytes(s) + |s|
    decreases |s|
  {
    if s != {} {
      var k :| k in s;
      BytesWithout(s, k);
      BytesExtended(c, s - {k});
      ExtendedMember(c, s, k);
      BytesWithout(Extended(c, s), [c] + k);
    }
  }

  lemma {:induction false} ExtendedMember(c: Byte, s: set<Key>, k: Key)
    requires k in s
    ensures [c] + k in Extended(c, s)
    ensures Extended(c, s) - {[c] + k} == Extended(c, s - {k})
  {
    forall x | x in s && x != k
      ensures [c] + x != [c] + k
    {
      ConsKey(c, x);
      ConsKey(c, k);
    }
  }

  /** The keys of d that start with a byte below `from`. */
  ghost function Below(d: Dict, from: nat): set<Key> {
    set k | k in d && |k| > 0 && k[0] < from
  }

  lemma {:induction false} BelowStep(d: Dict, c: Byte, next: nat)
    requires c < next
    ensures Bytes(Below(d, c)) + Weight(After(d, c)) <= Bytes(Below(d, next))
  {
    hide Bytes, After;
    var group := Extended(c, After(d, c).Keys);
    AfterMembers(d, c);
    forall k | k in group
      ensures k in d && |k| > 0 && k[0] == c
    {
    }
    BytesExtended(c, After(d, c).Keys);
    BytesUnion(Below(d, c), group);
    BytesUnion(Below(d, c) + group, Below(d, next) - (Below(d, c) + group));
    assert Below(d, c) + group <= Below(d, next);
    assert (Below(d, c) + group) + (Below(d, next) - (Below(d, c) + group)) == Below(d, next);
  }

  lemma {:induction false} BelowAll(d: Dict)
    requires d != map[]
    ensures 1 + Bytes(Below(d, 256)) <= Weight(d)
  {
    hide Bytes;
    var rest := d.Keys - Below(d, 256);
    BytesUnion(Below(d, 256), rest);
    assert Below(d, 256) + rest == d.Keys;
    var k :| k in d;
    assert |d.Keys| > 0;
  }

  /** The bytes of all keys of a keyset, each with its terminator. */
  ghost function KeysetBytes(keys: seq<Key>): nat {
    if keys == [] then 0 else KeysetBytes(keys[..|keys| - 1]) + |keys[|keys| - 1]| + 1
  }

  lemma {:induction false} AddedKey(d: Dict, k: Key, v: nat)
    ensures Weight(d[k := v]) <= Weight(d) + |k| + 1
  {
    hide Bytes;
    var d' := d[k := v];
    assert d'.Keys == d.Keys + {k};
    if k !in d {
      BytesWithout(d'.Keys, k);
      assert d'.Keys - {k} == d.Keys;
    } else {
      assert d'.Keys == d.Keys;
    }
  }

  lemma {:induction false} RangeWeight(ks: Keyset, end: nat)
    requires InRange(ks, 0, end, 0)
    ensures Weight(RangeDict(ks, 0, end, 0)) <= KeysetBytes(ks.keys[..end])
    decreases end
  {
    hide Weight;
    if end > 0 {
      RangeWeight(ks, end - 1);
      var d, k := RangeDict(ks, 0, end - 1, 0), ks.keys[end - 1][0..];
      assert ks.keys[..end][..end - 1] == ks.keys[..end - 1];
      AddedKey(d, k, Stored(ks, end - 1));
    } else {
      NoWeight();
    }
  }

  lemma {:induction false} GraphWeight(ks: Keyset, n: nat)
    requires ks.Valid() && n <= |ks.keys|
    ensures Weight(GraphDict(ks, n)) <= KeysetBytes(ks.keys[..n])
    decreases n
  {
    hide Weight, Stores;
    if n > 0 {
      GraphWeight(ks, n - 1);
      assert ks.keys[..n][..n - 1] == ks.keys[..n - 1];
      AddedKey(GraphDict(ks, n - 1), ks.keys[n - 1], Stored(ks, n - 1));
    } else {
      NoWeight();
    }
  }

  lemma {:induction false} NoWeight()
    ensures Weight(map[]) == 0
  {
    var d: Dict := map[];
    assert d.Keys == {};
  }

  /** Two units of an array below the limit have an encodable-size distance. */
  lemma {:induction false} DistanceFits(a: nat, b: nat)
    requires a < MAX_OFFSETS && b < MAX_OFFSETS
    ensures OffsetFits(Xor(a, b))
  {
    hide Xor;
    PowerOffsets();
    XorJoined(29, 0, a, 0, b);
  }

  lemma {:induction false} PowerOffsets()
    ensures Pow2(29) == MAX_OFFSETS
  {
    assert Pow2(5) == 32;
    assert Pow2(10) == 1024;
    assert Pow2(15) == 32768;
    assert Pow2(20) == 1048576;
    assert Pow2(25) == 33554432;
  }

  lemma {:induction false} BelowGrows(d: Dict, from: nat, next: nat)
    requires from <= next
    ensures Bytes(Below(d, from)) <= Bytes(Below(d, next))
  {
    hide Bytes;
    var more := Below(d, next) - Below(d, from);
    BytesUnion(Below(d, from), more);
    assert Below(d, from) + more == Below(d, next);
  }

  lemma {:induction false} WeightStep(d: Dict, c: Byte, next: nat)
    requires c < next <= 256
    ensures Bytes(Below(d, c)) + Weight(After(d, c)) <= Bytes(Below(d, next)) <= Bytes(Below(d, 256))
  {
    hide Bytes, Weight, Below, After;
    BelowStep(d, c, next);
    BelowGrows(d, next, 256);
  }

  lemma {:induction false} TooFarApart(size: nat, a: nat, b: nat)
    requires a < size && b < size + 256 && !OffsetFits(Xor(a, b))
    ensures size + 256 > MAX_OFFSETS
  {
    hide Xor, OffsetFits;
    if a < MAX_OFFSETS && b < MAX_OFFSETS {
      DistanceFits(a, b);
    }
  }
}
